/** The crop dialog used before a student portrait or tournament poster is
    uploaded: its session state (pan, zoom, rotation, selected area), the
    size-constrained JPEG encoder behind "Save", and the save-time ceiling
    check.

    The browser's `canvas.toBlob` is not modelled; it is an oracle that, for
    the canvas of a phase (the cropped canvas or its rescaled copy) and a JPEG
    quality in hundredths (80 stands for 0.8), yields the size in bytes of the
    blob, or `None` when the browser hands back `null`. */
module CropModal {
  import opened Text
  import JsMath

  /** 500 KiB, the ceiling both the encoder and the save handler use. */
  const SizeCeiling: nat := 500 * 1024

  /** Longest side of the rescaled canvas. */
  const MaxWidth: nat := 1200

  /** The JPEG quality ladder 0.8, 0.7, …, 0.3 in hundredths. */
  const Qualities: seq<nat> := [80, 70, 60, 50, 40, 30]

  /** Quality of the last-resort encode of the rescaled canvas. */
  const FallbackQuality: nat := 30

  datatype Dims = Dims(width: nat, height: nat)

  /** The crop rectangle in source pixels (`croppedAreaPixels`). */
  datatype Rect = Rect(x: int, y: int, width: nat, height: nat)

  /** Which canvas an encode reads: the cropped one or its rescaled copy. */
  datatype Phase = FullSize | Downscaled

  /** One call of `canvas.toBlob`. */
  datatype Attempt = Attempt(phase: Phase, quality: nat)

  /** A JPEG produced by the encoder. */
  datatype Blob = Blob(size: nat, dims: Dims, quality: nat)

  /** `canvas.toBlob(resolve, "image/jpeg", quality)` as an oracle. */
  type Encoder = (Phase, nat) -> Option<nat>

  // ---------------------------------------------------------------------------
  // Canvas sizes
  // ---------------------------------------------------------------------------

  /** The cropped canvas is exactly the crop rectangle's size. */
  function CroppedCanvas(pixelCrop: Rect): (d: Dims)
    ensures d.width * d.height == pixelCrop.width * pixelCrop.height
    ensures d.width == pixelCrop.width && d.height == pixelCrop.height
  {
    Dims(pixelCrop.width, pixelCrop.height)
  }

  /** The rescaled canvas: `scale = min(maxWidth / w, maxWidth / h)` and each
      side becomes `side * scale`, truncated when stored in `canvas.width`.
      Both sides zero make the scale `Infinity`, each side `0 * Infinity`, that
      is `NaN`, which the canvas stores as 0. */
  function ScaledDims(d: Dims): (r: Dims)
    ensures r.width <= MaxWidth && r.height <= MaxWidth
    ensures d.width >= d.height && d.width > 0 ==> r.width == MaxWidth
    ensures d.height >= d.width && d.height > 0 ==> r.height == MaxWidth
    ensures d.width == 0 ==> r.width == 0
    ensures d.height == 0 ==> r.height == 0
  {
    var longest := if d.width >= d.height then d.width else d.height;
    if longest == 0 then Dims(0, 0)
    else Dims(ScaleSide(d.width, longest), ScaleSide(d.height, longest))
  }

  /** `floor(side * MaxWidth / longest)` for a side no longer than `longest`. */
  function ScaleSide(side: nat, longest: nat): (r: nat)
    requires 0 < longest && side <= longest
    ensures r <= MaxWidth
    ensures side == longest ==> r == MaxWidth
    ensures r * longest <= side * MaxWidth < (r + 1) * longest
  {
    var n := side * MaxWidth;
    var r := n / longest;
    assert n == r * longest + n % longest;
    assert (r + 1) * longest == r * longest + longest;
    assert n <= longest * MaxWidth by { MulLeq(side, longest, MaxWidth); }
    assert r <= MaxWidth by {
      if r > MaxWidth {
        MulLeq(MaxWidth + 1, r, longest);
      }
    }
    assert side == longest ==> r == MaxWidth by {
      if side == longest && r < MaxWidth {
        MulLeq(r + 1, MaxWidth, longest);
      }
    }
    r
  }

  lemma MulLeq(a: nat, b: nat, c: nat)
    requires a <= b
    ensures a * c <= b * c
  {
  }

  /** The scale is not clamped to 1: a canvas smaller than `MaxWidth` on both
      sides is enlarged by the rescale step, so the retry ladder encodes more
      pixels than the attempts it follows. */
  lemma ScaledDimsUpscalesSmallCanvas(d: Dims)
    requires 0 < d.width < MaxWidth && 0 < d.height < MaxWidth
    ensures ScaledDims(d).width >= d.width && ScaledDims(d).height >= d.height
    ensures ScaledDims(d).width > d.width || ScaledDims(d).height > d.height
  {
    var longest := if d.width >= d.height then d.width else d.height;
    var r := ScaledDims(d);
    UpscaledSide(d.width, longest, r.width);
    UpscaledSide(d.height, longest, r.height);
  }

  /** One side of a small canvas does not shrink when rescaled. */
  lemma UpscaledSide(side: nat, longest: nat, r: nat)
    requires 0 < longest < MaxWidth && side <= longest
    requires r * longest <= side * MaxWidth < (r + 1) * longest
    ensures r >= side
  {
    MulLeq(longest, MaxWidth, side);
    if r < side {
      MulLeq(r + 1, side, longest);
    }
  }

  // ---------------------------------------------------------------------------
  // The encode schedule
  // ---------------------------------------------------------------------------

  /** Every encode `compressImageToSize` can make, in the order it makes
      them: the ladder on the cropped canvas, the ladder on the rescaled
      canvas, and the last-resort encode at 0.3. */
  const Schedule: seq<Attempt> :=
    seq(13, k requires 0 <= k < 13 =>
      if k < 6 then Attempt(FullSize, Qualities[k])
      else if k < 12 then Attempt(Downscaled, Qualities[k - 6])
      else Attempt(Downscaled, FallbackQuality))

  /** Along the schedule, qualities fall within each canvas's ladder, and the
      rescaled canvas is encoded from the seventh call on. */
  lemma ScheduleShape()
    ensures forall a, b :: 0 <= a < b < 12 && Schedule[a].phase == Schedule[b].phase
              ==> Schedule[a].quality > Schedule[b].quality
    ensures forall k :: 0 <= k < |Schedule| ==> (Schedule[k].phase == Downscaled <==> k >= 6)
  {
    forall a, b | 0 <= a < b < 12 && Schedule[a].phase == Schedule[b].phase
      ensures Schedule[a].quality > Schedule[b].quality
    {
      if b < 6 {
        assert Schedule[a].quality == Qualities[a] && Schedule[b].quality == Qualities[b];
      } else {
        assert a >= 6;
        assert Schedule[a].quality == Qualities[a - 6] && Schedule[b].quality == Qualities[b - 6];
      }
    }
  }

  /** The encode of `phase` at quality `q` produced a blob within `maxSize`. */
  predicate Fits(encode: Encoder, phase: Phase, q: nat, maxSize: nat) {
    encode(phase, q).Some? && encode(phase, q).value <= maxSize
  }

  /** Rung `i` is the first rung of the ladder on `phase` that fits. */
  predicate FirstFitAt(encode: Encoder, phase: Phase, maxSize: nat, i: int) {
    && 0 <= i < |Qualities|
    && Fits(encode, phase, Qualities[i], maxSize)
    && forall j :: 0 <= j < i ==> !Fits(encode, phase, Qualities[j], maxSize)
  }

  /** No rung of the ladder on `phase` fits. */
  predicate NoneFits(encode: Encoder, phase: Phase, maxSize: nat) {
    forall j :: 0 <= j < |Qualities| ==> !Fits(encode, phase, Qualities[j], maxSize)
  }

  /** The blob an encode yields, if any. */
  function BlobOf(size: Option<nat>, dims: Dims, q: nat): Option<Blob> {
    match size
    case None => None
    case Some(n) => Some(Blob(n, dims, q))
  }

  /** `compressImageToSize(canvas, maxSize)`: first fit down the quality
      ladder; if nothing fits, rescale once and run the ladder again; if still
      nothing fits, return the 0.3 encode of the rescaled canvas whatever its
      size. `attempts` records each `toBlob` call in order. */
  method CompressImageToSize(canvas: Dims, maxSize: nat, encode: Encoder)
    returns (blob: Option<Blob>, attempts: seq<Attempt>)
    // the encodes made are a prefix of the schedule: at most 13 of them
    ensures 1 <= |attempts| <= |Schedule| && attempts == Schedule[..|attempts|]
    // within one canvas the qualities strictly decrease, and the rescaled
    // canvas is only encoded once every full-size rung has failed
    ensures forall a, b :: 0 <= a < b < |attempts| && b < 12 && attempts[a].phase == attempts[b].phase
              ==> attempts[a].quality > attempts[b].quality
    ensures forall k :: 0 <= k < |attempts| && attempts[k].phase == Downscaled
              ==> NoneFits(encode, FullSize, maxSize)
    // first fit on the cropped canvas wins, and nothing after it is tried
    ensures forall i :: FirstFitAt(encode, FullSize, maxSize, i) ==>
              && blob == BlobOf(encode(FullSize, Qualities[i]), canvas, Qualities[i])
              && |attempts| == i + 1
    // otherwise first fit on the rescaled canvas wins
    ensures NoneFits(encode, FullSize, maxSize) ==>
              forall i :: FirstFitAt(encode, Downscaled, maxSize, i) ==>
                && blob == BlobOf(encode(Downscaled, Qualities[i]), ScaledDims(canvas), Qualities[i])
                && |attempts| == 6 + i + 1
    // otherwise the last-resort encode is returned, fitting or not
    ensures NoneFits(encode, FullSize, maxSize) && NoneFits(encode, Downscaled, maxSize) ==>
              && blob == BlobOf(encode(Downscaled, FallbackQuality), ScaledDims(canvas), FallbackQuality)
              && |attempts| == 13
    // a returned blob fits, or is the last resort
    ensures blob.Some? ==>
              || blob.value.size <= maxSize
              || (&& NoneFits(encode, FullSize, maxSize) && NoneFits(encode, Downscaled, maxSize)
                  && blob.value.quality == FallbackQuality && blob.value.dims == ScaledDims(canvas))
  {
    ScheduleShape();
    attempts := [];
    var i := 0;
    while i < |Qualities|
      invariant 0 <= i <= |Qualities|
      invariant attempts == Schedule[..i]
      invariant forall j :: 0 <= j < i ==> !Fits(encode, FullSize, Qualities[j], maxSize)
    {
      var quality := Qualities[i];
      var size := encode(FullSize, quality);
      attempts := attempts + [Attempt(FullSize, quality)];
      if size.Some? && size.value <= maxSize {
        assert FirstFitAt(encode, FullSize, maxSize, i);
        return Some(Blob(size.value, canvas, quality)), attempts;
      }
      i := i + 1;
    }

    var scaled := ScaledDims(canvas);
    i := 0;
    while i < |Qualities|
      invariant 0 <= i <= |Qualities|
      invariant attempts == Schedule[..6 + i]
      invariant forall j :: 0 <= j < i ==> !Fits(encode, Downscaled, Qualities[j], maxSize)
    {
      var quality := Qualities[i];
      var size := encode(Downscaled, quality);
      attempts := attempts + [Attempt(Downscaled, quality)];
      if size.Some? && size.value <= maxSize {
        assert FirstFitAt(encode, Downscaled, maxSize, i);
        return Some(Blob(size.value, scaled, quality)), attempts;
      }
      i := i + 1;
    }

    attempts := attempts + [Attempt(Downscaled, FallbackQuality)];
    assert attempts == Schedule;
    blob := BlobOf(encode(Downscaled, FallbackQuality), scaled, FallbackQuality);
  }

  // ---------------------------------------------------------------------------
  // Save
  // ---------------------------------------------------------------------------

  /** How `getCroppedImg` ended: the image failed to load (the promise
      rejects), a 2D context was unavailable (it resolves to `null`), or the
      encoder returned a blob or `null`. */
  datatype CropOutcome = LoadFailed | NoContext | Encoded(blob: Option<Blob>)

  /** `getCroppedImg`: draw the crop onto a canvas of the crop's size and
      compress it under the 500 KiB ceiling. Rotation is applied to the
      pixels only and does not change the sizes modelled here. */
  method GetCroppedImg(pixelCrop: Rect, imageLoads: bool, contextAvailable: bool, encode: Encoder)
    returns (outcome: CropOutcome, attempts: seq<Attempt>)
    ensures !imageLoads ==> outcome == LoadFailed && attempts == []
    ensures imageLoads && !contextAvailable ==> outcome == NoContext && attempts == []
    ensures imageLoads && contextAvailable ==> outcome.Encoded? && 1 <= |attempts| <= 13
    ensures outcome.Encoded? && outcome.blob.Some? ==>
              outcome.blob.value.dims in {CroppedCanvas(pixelCrop), ScaledDims(CroppedCanvas(pixelCrop))}
    // the encodes are those of compressImageToSize on the cropped canvas
    ensures imageLoads && contextAvailable ==> attempts == Schedule[..|attempts|]
    ensures (imageLoads && contextAvailable
             && exists i :: 0 <= i < |Qualities| && Fits(encode, FullSize, Qualities[i], SizeCeiling))
            ==> (&& outcome.Encoded? && outcome.blob.Some?
                 && outcome.blob.value.size <= SizeCeiling && outcome.blob.value.dims == CroppedCanvas(pixelCrop))
    // the result is compression's: the first fitting full-size encode, after
    // exactly the encodes down to it
    ensures imageLoads && contextAvailable ==>
              forall i :: FirstFitAt(encode, FullSize, SizeCeiling, i) ==>
                && outcome == Encoded(BlobOf(encode(FullSize, Qualities[i]), CroppedCanvas(pixelCrop), Qualities[i]))
                && |attempts| == i + 1
    ensures imageLoads && contextAvailable && NoneFits(encode, FullSize, SizeCeiling) ==>
              forall i :: FirstFitAt(encode, Downscaled, SizeCeiling, i) ==>
                && outcome == Encoded(BlobOf(encode(Downscaled, Qualities[i]), ScaledDims(CroppedCanvas(pixelCrop)), Qualities[i]))
                && |attempts| == 6 + i + 1
    // when no full-size quality fits, the first fitting quality of the
    // rescaled canvas is returned
    ensures (&& imageLoads && contextAvailable && NoneFits(encode, FullSize, SizeCeiling)
             && exists i :: 0 <= i < |Qualities| && Fits(encode, Downscaled, Qualities[i], SizeCeiling))
            ==> (&& outcome.Encoded? && outcome.blob.Some? && outcome.blob.value.size <= SizeCeiling
                 && outcome.blob.value.dims == ScaledDims(CroppedCanvas(pixelCrop)) && 7 <= |attempts| <= 12)
    // when nothing fits, the 0.3 encode of the rescaled canvas is returned
    ensures (imageLoads && contextAvailable && NoneFits(encode, FullSize, SizeCeiling) && NoneFits(encode, Downscaled, SizeCeiling))
            ==> (&& outcome == Encoded(BlobOf(encode(Downscaled, FallbackQuality), ScaledDims(CroppedCanvas(pixelCrop)), FallbackQuality))
                 && |attempts| == 13)
  {
    if !imageLoads {
      return LoadFailed, [];
    }
    if !contextAvailable {
      return NoContext, [];
    }
    var canvas := CroppedCanvas(pixelCrop);
    var blob;
    blob, attempts := CompressImageToSize(canvas, SizeCeiling, encode);
    if exists i :: 0 <= i < |Qualities| && Fits(encode, FullSize, Qualities[i], SizeCeiling) {
      var i := FirstFitIndex(encode, FullSize, SizeCeiling);
      assert FirstFitAt(encode, FullSize, SizeCeiling, i);
    } else if exists i :: 0 <= i < |Qualities| && Fits(encode, Downscaled, Qualities[i], SizeCeiling) {
      var i := FirstFitIndex(encode, Downscaled, SizeCeiling);
      assert FirstFitAt(encode, Downscaled, SizeCeiling, i);
    }
    outcome := Encoded(blob);
  }

  /** The first fitting rung, when some rung fits. */
  function FirstFitIndex(encode: Encoder, phase: Phase, maxSize: nat): (i: nat)
    requires exists i :: 0 <= i < |Qualities| && Fits(encode, phase, Qualities[i], maxSize)
    ensures FirstFitAt(encode, phase, maxSize, i)
  {
    FirstFitFrom(encode, phase, maxSize, 0)
  }

  function FirstFitFrom(encode: Encoder, phase: Phase, maxSize: nat, start: nat): (i: nat)
    requires start <= |Qualities|
    requires forall j :: 0 <= j < start ==> !Fits(encode, phase, Qualities[j], maxSize)
    requires exists i :: start <= i < |Qualities| && Fits(encode, phase, Qualities[i], maxSize)
    ensures FirstFitAt(encode, phase, maxSize, i)
    decreases |Qualities| - start
  {
    if Fits(encode, phase, Qualities[start], maxSize) then start
    else FirstFitFrom(encode, phase, maxSize, start + 1)
  }

  /** What pressing "Save" leads to. */
  datatype SaveOutcome =
    | NothingSelected      // no `croppedAreaPixels` yet: the handler returns at once
    | ProcessingError      // `getCroppedImg` threw: "Error processing image" toast
    | NoImage              // `getCroppedImg` gave `null`: nothing is reported
    | TooLarge             // the blob is over 500 KiB: error toast, dialog stays open
    | Completed(blob: Blob) // `onCropComplete(blob)` then `onClose()`

  /** `handleSave`: the ceiling is checked again on whatever the encoder
      returned, and only a blob within it reaches `onCropComplete`. */
  function HandleSave(area: Option<Rect>, outcome: CropOutcome): (s: SaveOutcome)
    ensures area.None? ==> s == NothingSelected
    ensures s.Completed? ==> s.blob.size <= SizeCeiling
    ensures s.Completed? <==> area.Some? && outcome.Encoded? && outcome.blob.Some?
                               && outcome.blob.value.size <= SizeCeiling
    ensures s == TooLarge <==> area.Some? && outcome.Encoded? && outcome.blob.Some?
                               && outcome.blob.value.size > SizeCeiling
    // a rejected load lands in the catch and shows the error toast; a missing
    // context or a null blob is dropped without a word
    ensures area.Some? && outcome == LoadFailed ==> s == ProcessingError
    ensures area.Some? && (outcome == NoContext || outcome == Encoded(None)) ==> s == NoImage
  {
    match area
    case None => NothingSelected
    case Some(_) =>
      match outcome
      case LoadFailed => ProcessingError
      case NoContext => NoImage
      case Encoded(None) => NoImage
      case Encoded(Some(b)) => if b.size > SizeCeiling then TooLarge else Completed(b)
  }

  /** Saving with an area selected, a loadable image and a drawing context
      completes whenever some quality on the cropped canvas fits, handing over
      a blob of the cropped canvas's size; otherwise it completes with a blob
      of the rescaled canvas whenever some quality fits there. When nothing
      fits, the last-resort encode repeats the 0.3 encode of the rescaled
      canvas that already failed, so the save never completes. */
  method Save(area: Option<Rect>, imageLoads: bool, contextAvailable: bool, encode: Encoder)
    returns (s: SaveOutcome, attempts: seq<Attempt>)
    ensures area.None? ==> s == NothingSelected && attempts == []
    ensures s.Completed? ==> s.blob.size <= SizeCeiling && |attempts| <= 13
    ensures area.Some? && !imageLoads ==> s == ProcessingError && attempts == []
    ensures area.Some? && imageLoads && !contextAvailable ==> s == NoImage && attempts == []
    ensures (area.Some? && imageLoads && contextAvailable
             && exists i :: 0 <= i < |Qualities| && Fits(encode, FullSize, Qualities[i], SizeCeiling))
            ==> s.Completed? && s.blob.dims == CroppedCanvas(area.value)
    ensures (&& area.Some? && imageLoads && contextAvailable && NoneFits(encode, FullSize, SizeCeiling)
             && exists i :: 0 <= i < |Qualities| && Fits(encode, Downscaled, Qualities[i], SizeCeiling))
            ==> s.Completed? && s.blob.dims == ScaledDims(CroppedCanvas(area.value))
    ensures (&& area.Some? && imageLoads && contextAvailable
             && NoneFits(encode, FullSize, SizeCeiling) && NoneFits(encode, Downscaled, SizeCeiling))
            ==> (s == TooLarge || s == NoImage) && |attempts| == 13
    // the blob handed over is the first fitting encode
    ensures area.Some? && imageLoads && contextAvailable ==>
              forall i :: FirstFitAt(encode, FullSize, SizeCeiling, i) ==>
                && s == Completed(Blob(encode(FullSize, Qualities[i]).value, CroppedCanvas(area.value), Qualities[i]))
                && |attempts| == i + 1
    ensures area.Some? && imageLoads && contextAvailable && NoneFits(encode, FullSize, SizeCeiling) ==>
              forall i :: FirstFitAt(encode, Downscaled, SizeCeiling, i) ==>
                && s == Completed(Blob(encode(Downscaled, Qualities[i]).value, ScaledDims(CroppedCanvas(area.value)), Qualities[i]))
                && |attempts| == 6 + i + 1
  {
    match area
    case None =>
      return NothingSelected, [];
    case Some(pixelCrop) =>
      var outcome;
      outcome, attempts := GetCroppedImg(pixelCrop, imageLoads, contextAvailable, encode);
      // the last-resort encode is the last rung of the rescaled ladder again
      assert Qualities[|Qualities| - 1] == FallbackQuality;
      s := HandleSave(area, outcome);
  }

  // ---------------------------------------------------------------------------
  // Session state
  // ---------------------------------------------------------------------------

  datatype Point = Point(x: real, y: real)

  /** The dialog's state: pan offset, zoom, rotation in degrees and the crop
      rectangle last reported by the cropper. */
  datatype Session = Session(crop: Point, zoom: real, rotation: int, area: Option<Rect>)

  /** The state the dialog opens in. */
  const Initial: Session := Session(Point(0.0, 0.0), 1.0, 0, None)

  /** The "rotate 90° clockwise" button: `(prev + 90) % 360`. */
  function Rotate90(s: Session): (r: Session)
    ensures r.crop == s.crop && r.zoom == s.zoom && r.area == s.area
    ensures s.rotation >= -90 ==> 0 <= r.rotation < 360
    ensures (r.rotation - (s.rotation + 90)) % 360 == 0
    // the remainder keeps the sign of `prev + 90`, so a turn within one
    // revolution either way is plain addition
    ensures -360 < s.rotation + 90 < 360 ==> r.rotation == s.rotation + 90
    ensures s.rotation + 90 < 0 ==> -360 < r.rotation <= 0
  {
    var r := JsMath.JsRem(s.rotation + 90, 360);
    s.(rotation := r)
  }

  /** Four quarter turns from a rotation in [0, 360) come back to it. */
  lemma RotateFourTimes(s: Session)
    requires 0 <= s.rotation < 360
    ensures Rotate90(Rotate90(Rotate90(Rotate90(s)))) == s
  {
    var r1 := Rotate90(s);
    QuarterTurn(s.rotation);
    var r2 := Rotate90(r1);
    QuarterTurn(r1.rotation);
    var r3 := Rotate90(r2);
    QuarterTurn(r2.rotation);
    var r4 := Rotate90(r3);
    QuarterTurn(r3.rotation);
  }

  /** One quarter turn from [0, 360), without the remainder. */
  lemma QuarterTurn(x: int)
    requires 0 <= x < 360
    ensures JsMath.JsRem(x + 90, 360) == if x < 270 then x + 90 else x - 270
  {
    if x >= 270 {
      assert x + 90 == 1 * 360 + (x - 270);
    }
  }

  /** The slider lets the user pick a negative rotation; a quarter turn from
      there is not kept in [0, 360) and four of them do not come back. */
  lemma RotateFromNegative()
    ensures Rotate90(Initial.(rotation := -180)).rotation == -90
    ensures Rotate90(Rotate90(Rotate90(Rotate90(Initial.(rotation := -180))))).rotation == 180
  {
  }

  /** "Reset All": zoom 1, rotation 0, pan (0, 0); the crop area is kept. */
  function ResetAll(s: Session): (r: Session)
    ensures r.area == s.area
    ensures r == Initial.(area := s.area)
    ensures ResetAllDisabled(r)
  {
    Session(Point(0.0, 0.0), 1.0, 0, s.area)
  }

  /** The "Reset All" button is disabled at zoom 1 and rotation 0. */
  predicate ResetAllDisabled(s: Session) {
    s.zoom == 1.0 && s.rotation == 0
  }

  /** `handleClose`: everything back to the opening state, including the crop
      area, so "Save" is disabled until the cropper reports a new one. */
  function Close(s: Session): (r: Session)
    ensures r == Initial
    ensures SaveDisabled(r, false)
    ensures ResetAllDisabled(r)
  {
    Session(Point(0.0, 0.0), 1.0, 0, None)
  }

  /** The "Save" button is disabled without a crop area or while processing. */
  predicate SaveDisabled(s: Session, processing: bool) {
    s.area.None? || processing
  }

  /** The per-control "Reset" buttons. */
  function ResetZoom(s: Session): (r: Session)
    ensures r.zoom == 1.0 && r.rotation == s.rotation && r.crop == s.crop && r.area == s.area
  {
    s.(zoom := 1.0)
  }

  function ResetRotation(s: Session): (r: Session)
    ensures r.rotation == 0 && r.zoom == s.zoom && r.crop == s.crop && r.area == s.area
  {
    s.(rotation := 0)
  }

  /** Resetting both controls one by one is "Reset All" without the pan. */
  lemma ResetControlsAgreeWithResetAll(s: Session)
    requires s.crop == Point(0.0, 0.0)
    ensures ResetRotation(ResetZoom(s)) == ResetAll(s)
  {
  }
}
