/** The dashboard's student editor: the achievements textarea, the multipart
    body sent on create/update, the image picker's guards and the image state
    kept when a student is opened for editing. */
module StudentsAdmin {
  import opened Text
  import opened Forms
  import Seqs
  import CropModal
  import ImageUtils

  /** `a.trim()` is truthy. */
  predicate HasText(line: string) {
    !IsBlank(line)
  }

  /** `onSubmit`: the textarea is split on `\n` and lines that are only
      whitespace are dropped; kept lines are not trimmed. An empty or missing
      text gives no achievements. */
  function SplitAchievements(text: Option<string>): (xs: seq<string>)
    ensures text.None? || text == Some("") ==> xs == []
    ensures forall i :: 0 <= i < |xs| ==> HasText(xs[i]) && '\n' !in xs[i]
    ensures text.Some? ==> forall i :: 0 <= i < |xs| ==> xs[i] in Split(text.value, '\n')
    ensures text.Some? ==> forall i :: 0 <= i < |Split(text.value, '\n')| && HasText(Split(text.value, '\n')[i])
                                      ==> Split(text.value, '\n')[i] in xs
    // the kept lines keep their order, and every copy of a kept line survives
    ensures text.Some? ==> Seqs.IsSubsequence(xs, Split(text.value, '\n'))
    ensures text.Some? ==> forall x :: multiset(xs)[x] == if HasText(x) then multiset(Split(text.value, '\n'))[x] else 0
  {
    match text
    case None => []
    case Some(t) =>
      if t == "" then
        SplitWithoutSeparator(t, '\n');
        assert multiset(Split(t, '\n')) == multiset{""};
        []
      else
        var lines := Split(t, '\n');
        LinesHaveNoNewline(t);
        var kept := Seqs.Filter(lines, HasText, true);
        Seqs.FilterSubsequence(lines, HasText, true);
        Seqs.FilterMultiplicity(lines, HasText, true);
        assert forall i :: 0 <= i < |kept| ==> '\n' !in kept[i] by {
          forall i | 0 <= i < |kept|
            ensures '\n' !in kept[i]
          {
            var j :| 0 <= j < |lines| && lines[j] == kept[i];
          }
        }
        kept
  }
  /** Order and multiplicity pin the achievements down: a list that keeps the
      line order and holds every copy of each line with text, and nothing
      else, is what the submit handler sends. */
  lemma SplitAchievementsUnique(t: string, xs: seq<string>)
    requires Seqs.IsSubsequence(xs, Split(t, '\n'))
    requires forall x :: multiset(xs)[x] == if HasText(x) then multiset(Split(t, '\n'))[x] else 0
    ensures xs == SplitAchievements(Some(t))
  {
    Seqs.FilterUnique(xs, Split(t, '\n'), HasText, true);
    if t == "" {
      SplitWithoutSeparator(t, '\n');
      assert !HasText("");
      assert Seqs.Filter([""], HasText, true) == [];
    }
  }


  /** No piece of a split on `\n` contains `\n`. */
  lemma {:induction false} LinesHaveNoNewline(t: string)
    ensures forall i :: 0 <= i < |Split(t, '\n')| ==> '\n' !in Split(t, '\n')[i]
    decreases |t|
  {
    if |t| > 0 {
      LinesHaveNoNewline(t[1..]);
    }
  }

  /** `handleEdit`: the list goes back into the textarea joined by `\n`. */
  function JoinAchievements(xs: seq<string>): string {
    Join(xs, '\n')
  }

  /** Editing and saving without touching the textarea keeps the list, as
      long as no achievement holds a line break or is blank. */
  lemma AchievementsRoundTrip(xs: seq<string>)
    requires forall i :: 0 <= i < |xs| ==> '\n' !in xs[i] && HasText(xs[i])
    ensures SplitAchievements(Some(JoinAchievements(xs))) == xs
  {
    if |xs| > 0 {
      var t := JoinAchievements(xs);
      assert |xs[0]| > 0;
      assert t != "" by {
        if |xs| > 1 { assert |t| >= |xs[0]|; }
      }
      SplitJoin(xs, '\n');
      Seqs.FilterKeepsAll(xs, HasText, true);
    }
  }

  /** A blank achievement does not survive the round trip. */
  lemma BlankAchievementDropped()
    ensures SplitAchievements(Some(JoinAchievements(["Won", " "]))) == ["Won"]
  {
    var lines := ["Won", " "];
    var t := JoinAchievements(lines);
    SplitJoin(lines, '\n');
    assert Split(t, '\n') == lines;
    assert t != "";
    assert !HasText(" ");
    assert HasText("Won") by { assert !IsJsWhitespace("Won"[0]); }
    assert lines[1..] == [" "] && [" "][1..] == [];
    assert Seqs.Filter([" "], HasText, true) == [];
    assert Seqs.Filter(lines, HasText, true) == ["Won"];
  }

  // ---------------------------------------------------------------------------
  // Multipart body
  // ---------------------------------------------------------------------------

  const StudentImageName: string := "student-image.jpg"

  /** The field name of the `index`-th achievement. */
  function AchievementKey(index: nat): string {
    "achievements[" + NatToString(index) + "]"
  }

  /** Two different positions never share a field name. */
  lemma AchievementKeysDistinct(i: nat, j: nat)
    requires i != j
    ensures AchievementKey(i) != AchievementKey(j)
  {
    var prefix := "achievements[";
    if AchievementKey(i) == AchievementKey(j) {
      var a, b := AchievementKey(i), AchievementKey(j);
      assert NatToString(i) == a[|prefix|..|a| - 1];
      assert NatToString(j) == b[|prefix|..|b| - 1];
      NatToStringInjective(i, j);
    }
  }

  /** One field per achievement, named by its position counted from `from`. */
  function AchievementEntries(items: seq<string>, from: nat): (es: seq<Entry>)
    ensures |es| == |items|
    ensures forall i :: 0 <= i < |es| ==> es[i] == Field(AchievementKey(from + i), items[i])
    decreases |items|
  {
    if |items| == 0 then []
    else [Field(AchievementKey(from), items[0])] + AchievementEntries(items[1..], from + 1)
  }

  /** The entries one form field contributes. */
  function EntriesFor(key: string, v: Value): seq<Entry> {
    if key == "image" then []
    else if key == "achievements" && v.List? then AchievementEntries(v.items, 0)
    else [Field(key, Stringify(v))]
  }

  /** The text part of the body: every form field but `image`, in order, with
      the achievements array spread over indexed fields. */
  function FieldEntries(data: Record): (es: seq<Entry>)
    ensures forall i :: 0 <= i < |es| ==> es[i].Field? && es[i].name != "image"
    decreases |data|
  {
    if |data| == 0 then []
    else
      var first := EntriesFor(data[0].0, data[0].1);
      assert forall i :: 0 <= i < |first| ==> first[i].name != "image" by {
        forall i | 0 <= i < |first|
          ensures first[i].name != "image"
        {
          if data[0].0 == "achievements" && data[0].1.List? {
            assert first[i].name[0] == 'a';
          }
        }
      }
      first + FieldEntries(data[1..])
  }

  /** `handleCreateOrUpdate`'s `FormData`: the fields, then the cropped image
      as `student-image.jpg` when there is one. */
  function StudentFormData(data: Record, cropped: Option<CropModal.Blob>): (es: seq<Entry>)
    ensures forall i :: 0 <= i < |es| && es[i].name == "image" ==>
              cropped.Some? && es[i] == File("image", cropped.value, StudentImageName) && i == |es| - 1
    ensures cropped.Some? <==> exists i :: 0 <= i < |es| && es[i].File?
    ensures |FieldEntries(data)| <= |es| && es[..|FieldEntries(data)|] == FieldEntries(data)
    // nothing but the fields and, when there is a crop, the image part
    ensures |es| == |FieldEntries(data)| + (if cropped.Some? then 1 else 0)
    ensures cropped.Some? ==> es[|es| - 1] == File("image", cropped.value, StudentImageName)
  {
    var fields := FieldEntries(data);
    if cropped.Some? then
      var es := fields + [File("image", cropped.value, StudentImageName)];
      assert es[|es| - 1].File?;
      es
    else
      fields
  }

  /** Field entries of two halves of a form concatenate. */
  lemma {:induction false} FieldEntriesAppend(a: Record, b: Record)
    ensures FieldEntries(a + b) == FieldEntries(a) + FieldEntries(b)
    decreases |a|
  {
    if |a| == 0 {
      assert a + b == b;
    } else {
      assert (a + b)[1..] == a[1..] + b;
      FieldEntriesAppend(a[1..], b);
    }
  }

  /** The achievements become consecutive fields `achievements[0]`,
      `achievements[1]`, … in list order, where the achievements field sits. */
  lemma AchievementsInPlace(before: Record, items: seq<string>, after: Record)
    ensures FieldEntries(before + [("achievements", List(items))] + after)
         == FieldEntries(before) + AchievementEntries(items, 0) + FieldEntries(after)
  {
    var middle: Record := [("achievements", List(items))];
    FieldEntriesAppend(before + middle, after);
    FieldEntriesAppend(before, middle);
    FieldEntriesSingle("achievements", List(items));
  }

  /** A one-field form contributes that field's entries. */
  lemma FieldEntriesSingle(key: string, v: Value)
    ensures FieldEntries([(key, v)]) == EntriesFor(key, v)
  {
    assert [(key, v)][1..] == [];
  }

  /** Every other field except `image` is sent as its text. */
  lemma ScalarFieldSent(data: Record, i: nat)
    requires i < |data| && data[i].0 != "image" && !(data[i].0 == "achievements" && data[i].1.List?)
    ensures Field(data[i].0, Stringify(data[i].1)) in FieldEntries(data)
  {
    var pre, x, post := data[..i], data[i], data[i + 1..];
    Seqs.SplitAround(data, i);
    FieldEntriesAppend(pre + [x], post);
    FieldEntriesAppend(pre, [x]);
    FieldEntriesSingle(x.0, x.1);
    var f := Field(x.0, Stringify(x.1));
    assert EntriesFor(x.0, x.1) == [f];
    var es := FieldEntries(pre) + [f] + FieldEntries(post);
    assert es[|FieldEntries(pre)|] == f;
  }

  // ---------------------------------------------------------------------------
  // Image picker and edit
  // ---------------------------------------------------------------------------

  /** 500 KiB, the largest file the picker accepts. */
  const MaxFileSize: nat := 500 * 1024

  /** `handleImageSelect`: size is checked before the type; either rejection
      clears the input; an acceptable image opens the crop dialog. */
  function SelectImage(file: Option<SelectedFile>): (o: SelectOutcome)
    ensures file.None? <==> o == NoFile
    ensures o.Rejected? ==> o.inputCleared
    ensures file.Some? && file.value.size > MaxFileSize ==> o == Rejected(TooLarge, true)
    ensures o == Rejected(NotAnImage, true) <==> file.Some? && file.value.size <= MaxFileSize && !IsImageType(file.value)
    ensures o == OpenCropper <==> file.Some? && file.value.size <= MaxFileSize && IsImageType(file.value)
  {
    match file
    case None => NoFile
    case Some(f) =>
      if f.size > MaxFileSize then Rejected(TooLarge, true)
      else if IsImageType(f) then OpenCropper
      else Rejected(NotAnImage, true)
  }

  /** `handleEdit`'s image part: a valid stored image becomes the preview and
      the rest of the image state is left alone; anything else resets it. */
  function EditImageState(state: ImageState, image: Option<string>): (r: ImageState)
    ensures r.preview.Some? <==> ImageUtils.IsValidImageUrl(image)
    ensures r.preview.Some? ==> r.preview == image && r.selected == state.selected && r.cropped == state.cropped
    ensures !ImageUtils.IsValidImageUrl(image) ==> r == NoImage
  {
    if image.Some? && image.value != "" && ImageUtils.IsValidImageUrl(image) then state.(preview := image)
    else NoImage
  }
}
