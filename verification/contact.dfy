/** The public enrollment form: its initial state, how an input updates it,
    the required-field check, the enrollment request built from it, and the
    reset after a successful submit. */
module Contact {
  import opened Text
  import opened Forms

  /** The form's fields, in declaration order. */
  const Fields: seq<string> := ["firstName", "lastName", "email", "phone", "age", "branch",
                                "experience", "preferredProgram", "message", "newsletter"]

  /** The state the form starts in and returns to after a submit: the main
      branch, the beginner level, no newsletter, every other field empty. */
  function InitialForm(): (form: Record)
    ensures |form| == |Fields| && forall i :: 0 <= i < |form| ==> form[i].0 == Fields[i]
    ensures DistinctKeys(form)
    ensures form[5].1 == Str("Kalamboli") && form[6].1 == Str("Beginner") && form[9].1 == Bool(false)
    ensures forall i :: 0 <= i < |form| && i !in {5, 6, 9} ==> form[i].1 == Str("")
  {
    [("firstName", Str("")), ("lastName", Str("")), ("email", Str("")), ("phone", Str("")),
     ("age", Str("")), ("branch", Str("Kalamboli")), ("experience", Str("Beginner")),
     ("preferredProgram", Str("")), ("message", Str("")), ("newsletter", Bool(false))]
  }

  /** `formData[key]`; a key the form does not hold reads as `undefined`. */
  function Read(form: Record, key: string): (v: Value)
    ensures Get(form, key).None? ==> v == Undefined
    ensures Get(form, key).Some? ==> v == Get(form, key).value
  {
    match Get(form, key)
    case None => Undefined
    case Some(v) => v
  }

  /** The change event's target. */
  datatype Input = Input(name: string, value: string, isCheckbox: bool, checked: bool)

  /** `handleInputChange`: the named field takes the box's `checked` state
      for a checkbox and the input's text otherwise; nothing else changes. */
  function HandleInputChange(form: Record, e: Input): (r: Record)
    requires DistinctKeys(form)
    ensures DistinctKeys(r)
    ensures Read(r, e.name) == if e.isCheckbox then Bool(e.checked) else Str(e.value)
    ensures forall k :: k != e.name ==> Read(r, k) == Read(form, k)
    ensures Get(form, e.name).Some? ==> |r| == |form|
  {
    Set(form, e.name, if e.isCheckbox then Bool(e.checked) else Str(e.value))
  }

  /** The body of the enrollment request. `age` is `None` for `undefined`
      and `Some(None)` for `NaN`. */
  datatype Payload = Payload(name: string, email: Value, phone: Value, branch: Value,
                             age: Option<Option<int>>, experience: Value, message: string)

  /** The four required fields are filled in. */
  predicate RequiredFilled(form: Record) {
    Truthy(Read(form, "firstName")) && Truthy(Read(form, "lastName")) &&
    Truthy(Read(form, "email")) && Truthy(Read(form, "phone"))
  }

  /** The three lines of the request's message. */
  function MessageLines(form: Record): (lines: seq<string>)
    ensures |lines| == 3
  {
    ["Goals & Experience: " + Stringify(Read(form, "message")),
     "Preferred Program: " + Stringify(Read(form, "preferredProgram")),
     "Newsletter: " + (if Truthy(Read(form, "newsletter")) then "Yes" else "No")]
  }

  /** `enrollmentData` */
  function BuildPayload(form: Record): (p: Payload)
    ensures p.message == Join(MessageLines(form), '\n')
    ensures !Truthy(Read(form, "age")) <==> p.age.None?
    ensures p.age.Some? ==> p.age.value == ParseInt(Stringify(Read(form, "age")))
    ensures p.email == Read(form, "email") && p.phone == Read(form, "phone")
    ensures p.branch == Read(form, "branch") && p.experience == Read(form, "experience")
  {
    var lines := MessageLines(form);
    var message := lines[0] + "\n" + lines[1] + "\n" + lines[2];
    assert message == Join(lines, '\n') by {
      assert lines[1..][1..] == [lines[2]];
      assert Join(lines[1..][1..], '\n') == lines[2];
      assert Join(lines[1..], '\n') == lines[1] + "\n" + lines[2];
      assert Join(lines, '\n') == lines[0] + "\n" + (lines[1] + "\n" + lines[2]);
    }
    Payload(
      Stringify(Read(form, "firstName")) + " " + Stringify(Read(form, "lastName")),
      Read(form, "email"), Read(form, "phone"), Read(form, "branch"),
      if Truthy(Read(form, "age")) then Some(ParseInt(Stringify(Read(form, "age")))) else None,
      Read(form, "experience"),
      message)
  }

  /** The full name splits back into the two names when neither holds a
      space. */
  lemma NameSplitsBack(form: Record)
    requires ' ' !in Stringify(Read(form, "firstName")) && ' ' !in Stringify(Read(form, "lastName"))
    ensures Split(BuildPayload(form).name, ' ') == [Stringify(Read(form, "firstName")), Stringify(Read(form, "lastName"))]
  {
    var first, last := Stringify(Read(form, "firstName")), Stringify(Read(form, "lastName"));
    SplitJoin([first, last], ' ');
    assert Join([first, last], ' ') == first + " " + last by {
      assert [first, last][1..] == [last];
    }
  }

  /** The message reads back as its three lines when the goals and the
      program are single lines. */
  lemma MessageSplitsBack(form: Record)
    requires '\n' !in Stringify(Read(form, "message"))
    requires '\n' !in Stringify(Read(form, "preferredProgram"))
    ensures Split(BuildPayload(form).message, '\n') == MessageLines(form)
  {
    var lines := MessageLines(form);
    forall i | 0 <= i < |lines|
      ensures '\n' !in lines[i]
    {
      if i == 0 {
        NoCharInConcat("Goals & Experience: ", Stringify(Read(form, "message")), '\n');
      } else if i == 1 {
        NoCharInConcat("Preferred Program: ", Stringify(Read(form, "preferredProgram")), '\n');
      }
    }
    SplitJoin(lines, '\n');
  }

  lemma NoCharInConcat(a: string, b: string, c: char)
    requires c !in a && c !in b
    ensures c !in a + b
  {
  }

  /** An age entered as digits is sent as its number. */
  lemma AgeSent(form: Record, n: nat)
    requires Read(form, "age") == Str(NatToString(n))
    ensures BuildPayload(form).age == Some(Some(n))
  {
    ParseIntOfIntToString(n);
    assert IntToString(n) == NatToString(n);
  }

  /** What a submit does: the request sent, if any, and the form afterwards. */
  datatype Submitted = Submitted(request: Option<Payload>, form: Record)

  /** `handleSubmit`: with a required field empty nothing is sent and the form
      stays; otherwise the request is sent, and the form goes back to its
      initial state when it succeeds and stays as it was when it fails. */
  function HandleSubmit(form: Record, requestSucceeds: bool): (s: Submitted)
    ensures s.request.Some? <==> RequiredFilled(form)
    ensures s.request.Some? ==> s.request.value == BuildPayload(form)
    ensures s.form == InitialForm() <==> (RequiredFilled(form) && requestSucceeds) || form == InitialForm()
    ensures !(RequiredFilled(form) && requestSucceeds) ==> s.form == form
  {
    if !RequiredFilled(form) then Submitted(None, form)
    else if requestSucceeds then Submitted(Some(BuildPayload(form)), InitialForm())
    else Submitted(Some(BuildPayload(form)), form)
  }

  /** The initial form is never sent: its names, email and phone are empty. */
  lemma InitialFormNotSent(requestSucceeds: bool)
    ensures HandleSubmit(InitialForm(), requestSucceeds) == Submitted(None, InitialForm())
  {
    var f := InitialForm();
    GetAt(f, 0);
  }
}
