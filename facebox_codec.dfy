/**
 * The FaceBox codec: turns one raw detector record into the engine's
 * five-field record `[x, y, w, h, confidence]`.
 *
 * Detector values are modelled as exact reals; JavaScript's `Math.round`
 * is `Round` below.
 */
module FaceBoxCodec {
  import opened Wrappers

  /** A bounding box as the detector reports it, already in absolute pixels. */
  datatype BoundingBox = BoundingBox(originX: real, originY: real, width: real, height: real)

  /** One classification of a detection; only its score is read. */
  datatype Category = Category(score: real)

  /** One candidate face returned by the detector. */
  datatype Detection = Detection(boundingBox: BoundingBox, categories: seq<Category>)

  /** The canonical record: pixel coordinates and a confidence with two decimals. */
  datatype FaceBox = FaceBox(x: int, y: int, w: int, h: int, confidence: real)

  /** Reading `categories[0]` of a detection without categories throws. */
  datatype CodecError = MissingCategory

  /** JavaScript's `Math.round`: the nearest integer, a half rounding toward +infinity. */
  function Round(v: real): (r: int)
    ensures r as real - 0.5 <= v < r as real + 0.5
  {
    (v + 0.5).Floor
  }

  /** `v` is a whole number of hundredths. */
  predicate IsHundredths(v: real) {
    (v * 100.0).Floor as real == v * 100.0
  }

  /** `Math.round(v * 100) / 100`: `v` rounded to two decimal places. */
  function RoundToHundredths(v: real): (r: real)
    ensures IsHundredths(r)
    ensures v - 0.005 < r <= v + 0.005
  {
    var k := Round(v * 100.0);
    assert (k as real / 100.0) * 100.0 == k as real;
    k as real / 100.0
  }

  /** `x` is the value `Math.round` gives for `v`. */
  predicate RoundsTo(v: real, x: int) {
    x as real - 0.5 <= v < x as real + 0.5
  }

  /**
   * convertToFaceBox: coordinates and size copied through with `Math.round`,
   * the first category's score rounded to two decimals. The frame size is
   * accepted and ignored: no rescaling is performed.
   */
  function ConvertToFaceBox(detection: Detection, videoWidth: real, videoHeight: real): (r: Result<FaceBox, CodecError>)
    ensures r.Success? <==> |detection.categories| > 0
    ensures r.Failure? ==> r.error == MissingCategory
    ensures r.Success? ==>
      && RoundsTo(detection.boundingBox.originX, r.value.x)
      && RoundsTo(detection.boundingBox.originY, r.value.y)
      && RoundsTo(detection.boundingBox.width, r.value.w)
      && RoundsTo(detection.boundingBox.height, r.value.h)
      && IsHundredths(r.value.confidence)
      && detection.categories[0].score - 0.005 < r.value.confidence <= detection.categories[0].score + 0.005
  {
    var bbox := detection.boundingBox;
    if |detection.categories| == 0 then Failure(MissingCategory)
    else
      Success(FaceBox(
        Round(bbox.originX),
        Round(bbox.originY),
        Round(bbox.width),
        Round(bbox.height),
        RoundToHundredths(detection.categories[0].score)))
  }

  /** The detector record that describes a FaceBox exactly (the codec's inverse). */
  function ToDetection(box: FaceBox): (d: Detection) {
    Detection(BoundingBox(box.x as real, box.y as real, box.w as real, box.h as real), [Category(box.confidence)])
  }

  /** `Math.round` is exact on integers. */
  lemma RoundOfInteger(n: int)
    ensures Round(n as real) == n
  {
  }

  /** Rounding to hundredths leaves a value that already has two decimals unchanged. */
  lemma {:induction false} RoundToHundredthsOfHundredths(v: real)
    requires IsHundredths(v)
    ensures RoundToHundredths(v) == v
  {
    var k := (v * 100.0).Floor;
    RoundOfInteger(k);
    assert v == k as real / 100.0;
  }

  /** The result never depends on the frame size passed alongside the detection. */
  lemma IgnoresFrameSize(detection: Detection, w1: real, h1: real, w2: real, h2: real)
    ensures ConvertToFaceBox(detection, w1, h1) == ConvertToFaceBox(detection, w2, h2)
  {
  }

  /** Decoding the exact record of a canonical FaceBox gives that box back. */
  lemma {:induction false} RoundTrip(box: FaceBox, videoWidth: real, videoHeight: real)
    requires IsHundredths(box.confidence)
    ensures ConvertToFaceBox(ToDetection(box), videoWidth, videoHeight) == Success(box)
  {
    RoundOfInteger(box.x);
    RoundOfInteger(box.y);
    RoundOfInteger(box.w);
    RoundOfInteger(box.h);
    RoundToHundredthsOfHundredths(box.confidence);
  }

  /** Converting is idempotent: re-encoding a converted box and converting again changes nothing. */
  lemma {:induction false} ConvertIdempotent(detection: Detection, videoWidth: real, videoHeight: real)
    requires |detection.categories| > 0
    ensures ConvertToFaceBox(detection, videoWidth, videoHeight).Success?
    ensures var box := ConvertToFaceBox(detection, videoWidth, videoHeight).value;
            ConvertToFaceBox(ToDetection(box), videoWidth, videoHeight) == Success(box)
  {
    var box := ConvertToFaceBox(detection, videoWidth, videoHeight).value;
    RoundTrip(box, videoWidth, videoHeight);
  }
}
