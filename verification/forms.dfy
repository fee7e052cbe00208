/** Form values as the pages hold them (plain JavaScript objects), how they
    turn into text, and the multipart entries an upload is built from. */
module Forms {
  import opened Text
  import CropModal

  /** A value in a form object. `List` is an array of strings. */
  datatype Value = Str(s: string) | Num(n: int) | Bool(b: bool) | List(items: seq<string>) | Undefined

  /** JavaScript truthiness: `''`, `0`, `false` and `undefined` are falsy,
      arrays never are. */
  predicate Truthy(v: Value) {
    match v
    case Str(s) => s != ""
    case Num(n) => n != 0
    case Bool(b) => b
    case List(_) => true
    case Undefined => false
  }

  /** `a || b`: the left operand when it is truthy, otherwise the right one. */
  function Or(a: Value, b: Value): (r: Value)
    ensures r == a || r == b
    ensures Truthy(r) <==> Truthy(a) || Truthy(b)
    ensures Truthy(a) ==> r == a
  {
    if Truthy(a) then a else b
  }

  /** `String(v)`, as template literals and `FormData.append` apply it; an
      array becomes its items joined by commas. */
  function Stringify(v: Value): (t: string)
    ensures v.Str? ==> t == v.s
    ensures v.Num? ==> ParseInt(t) == Some(v.n)
    ensures v.Bool? ==> t == (if v.b then "true" else "false")
  {
    match v
    case Str(s) => s
    case Num(n) =>
      ParseIntOfIntToString(n);
      IntToString(n)
    case Bool(b) => if b then "true" else "false"
    case List(items) => Join(items, ',')
    case Undefined => "undefined"
  }

  /** A plain object: its keys in insertion order, each with its value. */
  type Record = seq<(string, Value)>

  predicate DistinctKeys(rec: Record) {
    forall i, j :: 0 <= i < j < |rec| ==> rec[i].0 != rec[j].0
  }

  /** `rec[key]`, `None` when the key is absent. */
  function Get(rec: Record, key: string): (v: Option<Value>)
    ensures v.None? <==> forall i :: 0 <= i < |rec| ==> rec[i].0 != key
    ensures v.Some? ==> exists i :: 0 <= i < |rec| && rec[i] == (key, v.value)
    decreases |rec|
  {
    if |rec| == 0 then None
    else if rec[0].0 == key then Some(rec[0].1)
    else Get(rec[1..], key)
  }

  /** In a record with distinct keys, looking up the key at position `i`
      finds the value at position `i`. */
  lemma {:induction false} GetAt(rec: Record, i: nat)
    requires DistinctKeys(rec) && i < |rec|
    ensures Get(rec, rec[i].0) == Some(rec[i].1)
    decreases i
  {
    if i > 0 {
      assert rec[0].0 != rec[i].0;
      assert rec[1..][i - 1] == rec[i];
      GetAt(rec[1..], i - 1);
    }
  }

  /** `{...rec, [key]: v}`: an existing key keeps its place, a new key goes
      last. */
  function Set(rec: Record, key: string, v: Value): (r: Record)
    requires DistinctKeys(rec)
    ensures DistinctKeys(r)
    ensures Get(r, key) == Some(v)
    ensures forall k :: k != key ==> Get(r, k) == Get(rec, k)
    ensures |r| == |rec| || (|r| == |rec| + 1 && Get(rec, key).None?)
    decreases |rec|
  {
    if |rec| == 0 then [(key, v)]
    else if rec[0].0 == key then
      assert forall i :: 1 <= i < |rec| ==> rec[i].0 != key by {
        forall i | 1 <= i < |rec|
          ensures rec[i].0 != key
        {
          assert rec[0].0 != rec[i].0;
        }
      }
      [(key, v)] + rec[1..]
    else
      var rest := Set(rec[1..], key, v);
      assert forall i :: 0 <= i < |rest| ==> rest[i].0 != rec[0].0 by {
        forall i | 0 <= i < |rest|
          ensures rest[i].0 != rec[0].0
        {
          var k := rest[i].0;
          if k != key {
            assert Get(rest, k).Some?;
            assert Get(rec[1..], k).Some?;
          }
        }
      }
      [rec[0]] + rest
  }

  /** One entry appended to a `FormData`: a text field, or a file part with
      its file name. */
  datatype Entry = Field(name: string, text: string) | File(name: string, blob: CropModal.Blob, filename: string)

  /** The image state an admin form keeps: the chosen file as a data URL,
      the cropped blob, and the preview URL. */
  datatype ImageState = ImageState(selected: Option<string>, cropped: Option<CropModal.Blob>, preview: Option<string>)

  /** `resetImageStates()` */
  const NoImage: ImageState := ImageState(None, None, None)

  /** The file picked in an `<input type="file">`. */
  datatype SelectedFile = SelectedFile(size: nat, mimeType: string)

  datatype Rejection = TooLarge | NotAnImage

  /** What picking a file leads to: nothing (no file), a rejection with a
      toast (and the input possibly cleared), or the crop dialog. */
  datatype SelectOutcome = NoFile | Rejected(reason: Rejection, inputCleared: bool) | OpenCropper

  /** `file.type.startsWith('image/')` */
  predicate IsImageType(f: SelectedFile) {
    StartsWith(f.mimeType, "image/")
  }
}
