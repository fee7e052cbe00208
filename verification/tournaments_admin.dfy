/** The dashboard's tournament editor: the multipart body, the poster
    picker, the poster kept on edit, the create form's defaults, the two
    prompts, and the status badge colours. */
module TournamentsAdmin {
  import opened Text
  import opened Forms
  import CropModal
  import ImageUtils
  import StudentsAdmin
  import Seqs

  const PosterName: string := "tournament-poster.jpg"

  /** The form field holding the poster file. */
  predicate IsPosterField(f: (string, Value)) {
    f.0 == "posterImage"
  }

  /** The text part of the body: every form field except `posterImage`, each
      as its text, in form order. */
  function FieldEntries(data: Record): (es: seq<Entry>)
    ensures |es| <= |data|
    ensures forall i :: 0 <= i < |es| ==> es[i].Field? && es[i].name != "posterImage"
    ensures forall i :: 0 <= i < |data| && data[i].0 != "posterImage" ==> Field(data[i].0, Stringify(data[i].1)) in es
    decreases |data|
  {
    if |data| == 0 then []
    else
      var rest := FieldEntries(data[1..]);
      assert forall i :: 1 <= i < |data| ==> data[i] == data[1..][i - 1];
      if data[0].0 == "posterImage" then rest
      else [Field(data[0].0, Stringify(data[0].1))] + rest
  }

  /** Each field of `fields` as a text part, in order. */
  function TextParts(fields: Record): seq<Entry>
    decreases |fields|
  {
    if |fields| == 0 then []
    else [Field(fields[0].0, Stringify(fields[0].1))] + TextParts(fields[1..])
  }

  /** Part `i` of `TextParts` is field `i` as text. */
  lemma {:induction false} TextPartsAt(fields: Record)
    ensures |TextParts(fields)| == |fields|
    ensures forall i :: 0 <= i < |fields| ==> TextParts(fields)[i] == Field(fields[i].0, Stringify(fields[i].1))
    decreases |fields|
  {
    if |fields| > 0 {
      TextPartsAt(fields[1..]);
      var head := Field(fields[0].0, Stringify(fields[0].1));
      forall i | 1 <= i < |fields|
        ensures TextParts(fields)[i] == Field(fields[i].0, Stringify(fields[i].1))
      {
        Seqs.ConsIndex(head, TextParts(fields[1..]), i);
      }
    }
  }

  /** One part per non-poster field, in the order of those fields: the parts
      are the `filter` of the form that drops the poster, each as text. */
  lemma {:induction false} FieldEntriesAreKeptFields(data: Record)
    ensures FieldEntries(data) == TextParts(Seqs.Filter(data, IsPosterField, false))
    ensures var kept := Seqs.Filter(data, IsPosterField, false);
            && |FieldEntries(data)| == |kept|
            && forall i :: 0 <= i < |kept| ==> FieldEntries(data)[i] == Field(kept[i].0, Stringify(kept[i].1))
  {
    FieldEntriesFilter(data);
    TextPartsAt(Seqs.Filter(data, IsPosterField, false));
  }

  lemma {:induction false} FieldEntriesFilter(data: Record)
    ensures FieldEntries(data) == TextParts(Seqs.Filter(data, IsPosterField, false))
    decreases |data|
  {
    if |data| > 0 {
      FieldEntriesFilter(data[1..]);
      if data[0].0 == "posterImage" {
        PosterFieldSkipped(data);
      } else {
        OtherFieldKept(data);
        var kept := Seqs.Filter(data, IsPosterField, false);
        assert kept[1..] == Seqs.Filter(data[1..], IsPosterField, false);
      }
    }
  }

  /** A leading poster field contributes neither a kept field nor a part. */
  lemma PosterFieldSkipped(data: Record)
    requires |data| > 0 && data[0].0 == "posterImage"
    ensures Seqs.Filter(data, IsPosterField, false) == Seqs.Filter(data[1..], IsPosterField, false)
    ensures FieldEntries(data) == FieldEntries(data[1..])
  {
    assert IsPosterField(data[0]);
  }

  /** A leading non-poster field is kept and contributes the first part. */
  lemma OtherFieldKept(data: Record)
    requires |data| > 0 && data[0].0 != "posterImage"
    ensures Seqs.Filter(data, IsPosterField, false) == [data[0]] + Seqs.Filter(data[1..], IsPosterField, false)
    ensures FieldEntries(data) == [Field(data[0].0, Stringify(data[0].1))] + FieldEntries(data[1..])
  {
    assert !IsPosterField(data[0]);
  }

  /** The parts of two halves of a form concatenate. */
  lemma {:induction false} FieldEntriesAppend(a: Record, b: Record)
    ensures FieldEntries(a + b) == FieldEntries(a) + FieldEntries(b)
    decreases |a|
  {
    if |a| == 0 {
      assert a + b == b;
    } else {
      assert (a + b)[1..] == a[1..] + b;
      FieldEntriesAppend(a[1..], b);
    }
  }

  /** `handleCreateOrUpdate`'s `FormData`: the fields, then the cropped poster
      as `tournament-poster.jpg` when there is one. */
  function TournamentFormData(data: Record, cropped: Option<CropModal.Blob>): (es: seq<Entry>)
    ensures forall i :: 0 <= i < |es| && es[i].name == "posterImage" ==>
              cropped.Some? && es[i] == File("posterImage", cropped.value, PosterName) && i == |es| - 1
    ensures cropped.Some? <==> exists i :: 0 <= i < |es| && es[i].File?
    ensures forall i :: 0 <= i < |data| && data[i].0 != "posterImage" ==> Field(data[i].0, Stringify(data[i].1)) in es
    // nothing but the fields and, when there is a crop, the poster part
    ensures |es| == |FieldEntries(data)| + (if cropped.Some? then 1 else 0)
    ensures es[..|FieldEntries(data)|] == FieldEntries(data)
    ensures cropped.Some? ==> es[|es| - 1] == File("posterImage", cropped.value, PosterName)
  {
    var fields := FieldEntries(data);
    if cropped.Some? then
      var es := fields + [File("posterImage", cropped.value, PosterName)];
      assert es[|es| - 1].File?;
      assert forall i :: 0 <= i < |fields| ==> es[i] == fields[i];
      assert es[..|fields|] == fields;
      es
    else
      fields
  }

  /** `handleImageSelect`: only the MIME type is checked, and a rejected file
      stays in the input. */
  function SelectPoster(file: Option<SelectedFile>): (o: SelectOutcome)
    ensures file.None? <==> o == NoFile
    ensures o.Rejected? ==> o == Rejected(NotAnImage, false)
    ensures o == OpenCropper <==> file.Some? && IsImageType(file.value)
  {
    match file
    case None => NoFile
    case Some(f) => if IsImageType(f) then OpenCropper else Rejected(NotAnImage, false)
  }

  /** The poster picker accepts every file the student picker accepts, and
      also images over 500 KiB, which the student picker refuses. */
  lemma PosterPickerIsLaxer(file: Option<SelectedFile>)
    ensures StudentsAdmin.SelectImage(file) == OpenCropper ==> SelectPoster(file) == OpenCropper
    ensures file.Some? && IsImageType(file.value) && file.value.size > StudentsAdmin.MaxFileSize ==>
              SelectPoster(file) == OpenCropper && StudentsAdmin.SelectImage(file).Rejected?
  {
  }

  /** `handleEdit`'s image part: only a stored `/uploads/` path becomes the
      preview; anything else resets the image state. */
  function EditPosterState(state: ImageState, posterImage: Option<string>): (r: ImageState)
    ensures r.preview.Some? <==> posterImage.Some? && StartsWith(posterImage.value, ImageUtils.UploadsPrefix)
    ensures r.preview.Some? ==> r.preview == posterImage && r.selected == state.selected && r.cropped == state.cropped
    ensures r.preview.None? ==> r == NoImage
  {
    if posterImage.Some? && posterImage.value != "" && StartsWith(posterImage.value, ImageUtils.UploadsPrefix)
    then state.(preview := posterImage)
    else NoImage
  }

  /** The poster rule is stricter than `isValidImageUrl`: a kept poster is a
      valid image, but every https poster is valid and still dropped. */
  lemma PosterRuleStricter(state: ImageState, posterImage: Option<string>, rest: string)
    ensures EditPosterState(state, posterImage).preview.Some? ==> ImageUtils.IsValidImageUrl(posterImage)
    ensures ImageUtils.IsValidImageUrl(Some(ImageUtils.HttpsPrefix + rest))
    ensures EditPosterState(state, Some(ImageUtils.HttpsPrefix + rest)) == NoImage
  {
    var u := ImageUtils.HttpsPrefix + rest;
    assert u[..|ImageUtils.HttpsPrefix|] == ImageUtils.HttpsPrefix;
    assert u[0] != ImageUtils.UploadsPrefix[0];
  }

  // ---------------------------------------------------------------------------
  // Create form
  // ---------------------------------------------------------------------------

  /** The create form's fields, in the order `reset` receives them. */
  const FormFields: seq<string> := [
    "name", "date", "time", "location", "address", "entryFee", "prizePool",
    "maxParticipants", "currentParticipants", "format", "timeControl", "category",
    "registrationLink", "poster", "description", "listUntil"]

  /** `openCreateModal`'s defaults: no participants yet, the "Open Tournament"
      category, the trophy emoji as poster, every other field empty. */
  function CreateDefaults(): (r: Record)
    ensures |r| == |FormFields| && forall i :: 0 <= i < |r| ==> r[i].0 == FormFields[i]
    ensures DistinctKeys(r)
    ensures r[8].1 == Num(0) && r[11].1 == Str("Open Tournament") && r[13].1 == Str("🏆")
    ensures forall i :: 0 <= i < |r| && r[i].0 !in {"currentParticipants", "category", "poster"} ==> r[i].1 == Str("")
  {
    seq(|FormFields|, i requires 0 <= i < |FormFields| =>
      (FormFields[i],
       if FormFields[i] == "currentParticipants" then Num(0)
       else if FormFields[i] == "category" then Str("Open Tournament")
       else if FormFields[i] == "poster" then Str("🏆")
       else Str("")))
  }

  /** The defaults as `reset` receives them, looked up by name. */
  lemma CreateDefaultValues()
    ensures Get(CreateDefaults(), "currentParticipants") == Some(Num(0))
    ensures Get(CreateDefaults(), "category") == Some(Str("Open Tournament"))
    ensures Get(CreateDefaults(), "poster") == Some(Str("🏆"))
    ensures Get(CreateDefaults(), "name") == Some(Str(""))
  {
    var r := CreateDefaults();
    GetAt(r, 8);
    GetAt(r, 11);
    GetAt(r, 13);
    GetAt(r, 0);
  }

  // ---------------------------------------------------------------------------
  // Prompts
  // ---------------------------------------------------------------------------

  /** `markCompleted`: the winner prompt; a cancelled (`null`) or empty answer
      sends nothing, any other answer is sent as the winner. */
  function MarkCompleted(answer: Option<string>): (winner: Option<string>)
    ensures winner.Some? <==> answer.Some? && answer.value != ""
    ensures winner.Some? ==> winner == answer
  {
    match answer
    case None => None
    case Some(w) => if w == "" then None else Some(w)
  }

  /** `updateParticipants`: only a cancelled prompt sends nothing; any answer,
      even an empty one, is sent as `parseInt(answer)` (`None` is `NaN`). */
  function UpdateParticipants(answer: Option<string>): (request: Option<Option<int>>)
    ensures request.None? <==> answer.None?
    ensures answer.Some? ==> request == Some(ParseInt(answer.value))
  {
    match answer
    case None => None
    case Some(a) => Some(ParseInt(a))
  }

  /** An empty participant answer still sends a request, with `NaN`; a
      number typed back is sent as itself. */
  lemma EmptyParticipantAnswer(n: int)
    ensures UpdateParticipants(Some("")) == Some(None)
    ensures UpdateParticipants(Some(IntToString(n))) == Some(Some(n))
  {
    ParseIntOfIntToString(n);
  }

  // ---------------------------------------------------------------------------
  // Status colours
  // ---------------------------------------------------------------------------

  const DefaultStatusColor: string := "bg-gray-100 text-gray-800"

  /** `getStatusColor`: only "upcoming", "ongoing" and "cancelled" get a
      colour of their own. */
  function StatusColor(status: string): (c: string)
    ensures c == DefaultStatusColor <==> status !in {"upcoming", "ongoing", "cancelled"}
  {
    match status
    case "upcoming" => "bg-blue-100 text-blue-800"
    case "ongoing" => "bg-green-100 text-green-800"
    case "completed" => "bg-gray-100 text-gray-800"
    case "cancelled" => "bg-red-100 text-red-800"
    case _ => DefaultStatusColor
  }

  /** The three coloured statuses are told apart; "completed" looks the same
      as an unknown status. */
  lemma StatusColorsDistinct()
    ensures StatusColor("upcoming") != StatusColor("ongoing")
    ensures StatusColor("upcoming") != StatusColor("cancelled")
    ensures StatusColor("ongoing") != StatusColor("cancelled")
    ensures StatusColor("completed") == StatusColor("unknown")
  {
  }
}
