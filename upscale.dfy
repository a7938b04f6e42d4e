/**
 * upscale_image and object_exists with the object store and the image codec
 * replaced by their outcomes: what head_object answered for the source and
 * for the base image, and what opening each of them gave.
 */
module Upscale {

  /** What `head_object` did. */
  datatype HeadOutcome =
    | HeadOk                             // returned normally
    | HeadClientError(code: string)      // raised botocore's ClientError with this error code
    | HeadOtherError                     // raised any other exception (for one, missing credentials)

  /** What `object_exists` does: return a boolean or let an exception through. */
  datatype Existence = Returns(found: bool) | Propagates

  /** `object_exists`: only a ClientError with code '404' means "absent". */
  function ObjectExists(head: HeadOutcome): (r: Existence)
    ensures r == Returns(false) <==> head == HeadClientError("404")
    ensures r == Propagates <==> head.HeadOtherError?
  {
    match head
    case HeadOk => Returns(true)
    case HeadClientError(code) => if code == "404" then Returns(false) else Returns(true)
    case HeadOtherError => Propagates
  }

  /** What downloading an object and opening it with PIL gave. */
  datatype ImageOutcome =
    | Decoded(width: nat, height: nat)   // opened; `img.size`
    | Unidentified                       // `UnidentifiedImageError`
    | ImageError                         // any other exception (download failure, truncated file, ...)

  /** What saving and uploading the upscaled image did. */
  datatype WriteOutcome =
    | Written                            // `save` and `upload_file` returned
    | WriteError                         // one of them raised

  /** The answers the outside world gives one call of upscale_image. */
  datatype Probe = Probe(
    sourceHead: HeadOutcome,
    source: ImageOutcome,
    baseHead: HeadOutcome,
    existing: ImageOutcome,
    write: WriteOutcome)

  /** How one call of upscale_image ends. */
  datatype Decision =
    | SkipMissing                         // the source is gone (head answered 404)
    | SkipUndecodable                     // PIL could not identify the source or the existing base
    | SkipTooSmall                        // the source is under 600 px on its longest edge
    | SkipExistingLarger                  // the existing base has a larger area than the source
    | Upload(key: string, width: nat, height: nat)  // the upscaled image is uploaded under `key`
    | Raised                              // an exception leaves upscale_image

  /** The longest edge a source must reach; 600 itself is accepted. */
  const MinLongestEdge: nat := 600

  /** The linear scale factor main() uses (the default of `upscale_factor`). */
  const DefaultFactor: nat := 2

  function Max(a: nat, b: nat): nat
  {
    if a >= b then a else b
  }

  /**
   * The branches of upscale_image, from the existence test of the source to
   * the upload, with the directory of the base name created only when it has
   * one (see `UpscaleDecisionAsWritten` for the code as it stands).
   */
  function UpscaleDecision(probe: Probe, baseName: string, factor: nat): Decision
  {
    match ObjectExists(probe.sourceHead)
    case Propagates => Raised
    case Returns(false) => SkipMissing
    case Returns(true) =>
      match probe.source
      case ImageError => Raised
      case Unidentified => SkipUndecodable
      case Decoded(w, h) =>
        if Max(w, h) < MinLongestEdge then SkipTooSmall
        else
          var upload := if probe.write == WriteError then Raised else Upload(baseName, w * factor, h * factor);
          match ObjectExists(probe.baseHead)
          case Propagates => Raised
          case Returns(false) => upload
          case Returns(true) =>
            match probe.existing
            case ImageError => Raised
            case Unidentified => SkipUndecodable
            case Decoded(ew, eh) => if ew * eh > w * h then SkipExistingLarger else upload
  }

  /** The base image may be replaced: it is absent, or present, readable and no larger in area. */
  predicate BaseReplaceable(probe: Probe, w: nat, h: nat)
  {
    || ObjectExists(probe.baseHead) == Returns(false)
    || (&& ObjectExists(probe.baseHead) == Returns(true)
        && probe.existing.Decoded?
        && probe.existing.width * probe.existing.height <= w * h)
  }

  /**
   * upscale_image uploads exactly when the source exists, decodes, reaches
   * 600 px on its longest edge, the base image is replaceable and the write
   * goes through; the upload goes to the base name with both edges scaled by
   * the factor.
   */
  lemma UploadExactly(probe: Probe, baseName: string, factor: nat)
    ensures UpscaleDecision(probe, baseName, factor).Upload? <==>
      && ObjectExists(probe.sourceHead) == Returns(true)
      && probe.source.Decoded?
      && Max(probe.source.width, probe.source.height) >= MinLongestEdge
      && BaseReplaceable(probe, probe.source.width, probe.source.height)
      && probe.write == Written
    ensures UpscaleDecision(probe, baseName, factor).Upload? ==>
      UpscaleDecision(probe, baseName, factor) ==
        Upload(baseName, probe.source.width * factor, probe.source.height * factor)
  {
  }

  /** A source or base image that cannot be identified or read never leads to an upload. */
  lemma NoUploadWithoutImages(probe: Probe, baseName: string, factor: nat)
    requires !probe.source.Decoded? || (ObjectExists(probe.baseHead) == Returns(true) && !probe.existing.Decoded?)
    ensures !UpscaleDecision(probe, baseName, factor).Upload?
  {
  }

  /** The size gate is non-strict: a 600 px longest edge passes it, 599 px does not. */
  lemma SizeGateBoundary(baseName: string, short: nat)
    requires short <= 599
    ensures UpscaleDecision(Probe(HeadOk, Decoded(600, short), HeadClientError("404"), Unidentified, Written), baseName, DefaultFactor)
      == Upload(baseName, 1200, 2 * short)
    ensures UpscaleDecision(Probe(HeadOk, Decoded(short, 599), HeadClientError("404"), Unidentified, Written), baseName, DefaultFactor)
      == SkipTooSmall
  {
  }

  /**
   * Running upscale_image again after it uploaded, against the image it
   * uploaded, does not upload again: with a factor of at least 2 the upscaled
   * base is strictly larger in area than any source with both edges non-zero.
   */
  lemma RerunSkips(probe: Probe, baseName: string, factor: nat, rerun: Probe)
    requires factor >= 2
    requires probe.source.Decoded? && probe.source.width > 0 && probe.source.height > 0
    requires UpscaleDecision(probe, baseName, factor).Upload?
    requires rerun.sourceHead == probe.sourceHead && rerun.source == probe.source
    requires rerun.baseHead == HeadOk
    requires rerun.existing ==
      Decoded(UpscaleDecision(probe, baseName, factor).width, UpscaleDecision(probe, baseName, factor).height)
    ensures UpscaleDecision(rerun, baseName, factor) == SkipExistingLarger
  {
    var w, h := probe.source.width, probe.source.height;
    assert w * factor >= w * 2 && h * factor >= h * 2;
    calc {
      (w * factor) * (h * factor);
    >= { MulMonotone(w * factor, w * 2, h * factor, h * 2); }
      (w * 2) * (h * 2);
    ==
      4 * (w * h);
    >
      w * h;
    }
  }

  lemma MulMonotone(a: nat, b: nat, c: nat, d: nat)
    requires a >= b && c >= d
    ensures a * c >= b * d
  {
    assert a * c >= b * c;
    assert b * c >= b * d;
  }

  /**
   * `os.path.dirname(name)` is empty exactly when `name` has no '/', and
   * `os.makedirs('')` raises FileNotFoundError even with `exist_ok=True`.
   */
  predicate HasDirectory(name: string)
  {
    '/' in name
  }

  /**
   * upscale_image as written: on the way to the upload it calls
   * `os.makedirs(os.path.dirname(base_image_name), exist_ok=True)`, which
   * raises for a base name without a directory part.
   */
  function UpscaleDecisionAsWritten(probe: Probe, baseName: string, factor: nat): (d: Decision)
    ensures d.Upload? ==> HasDirectory(baseName)
    ensures HasDirectory(baseName) ==> d == UpscaleDecision(probe, baseName, factor)
    ensures !HasDirectory(baseName) && UpscaleDecision(probe, baseName, factor).Upload? ==> d == Raised
    ensures !UpscaleDecision(probe, baseName, factor).Upload? ==> d == UpscaleDecision(probe, baseName, factor)
  {
    var d := UpscaleDecision(probe, baseName, factor);
    if d.Upload? && !HasDirectory(baseName) then Raised else d
  }

  /**
   * A 600 x 400 source whose base `cat.jpg` is absent: the code as written
   * raises where an upload of 1200 x 800 is meant.
   */
  lemma TopLevelBaseRaises()
    ensures var probe := Probe(HeadOk, Decoded(600, 400), HeadClientError("404"), Unidentified, Written);
      && UpscaleDecisionAsWritten(probe, "cat.jpg", DefaultFactor) == Raised
      && UpscaleDecision(probe, "cat.jpg", DefaultFactor) == Upload("cat.jpg", 1200, 800)
  {
    assert !HasDirectory("cat.jpg");
  }
}
