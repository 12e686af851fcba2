/**
 * Per-image normalization in `upload_file` (lines 42-50): transparent images
 * are flattened onto a white RGB canvas, every other image is converted to
 * RGB, and the result is resized to fit the page. Images are abstract records;
 * pixels are not modelled.
 */
module Normalize {
  import opened Outcomes
  import opened PageFit

  /**
   * A decoded image: its PIL mode tag, whether its `info` dictionary has a
   * "transparency" key, and its size in pixels.
   */
  datatype Image = Image(mode: string, transparencyInfo: bool, width: nat, height: nat)

  /** The two ways line 42 can go. */
  datatype Branch = FlattenOnWhite | ConvertToRgb

  /** The mode tag every normalized image carries. */
  const Rgb: string := "RGB"

  /** Modes with an alpha band that line 42 names. */
  const AlphaModes: set<string> := {"RGBA", "LA"}

  /** Pillow's message when `resize` is asked for a side below 1. */
  const NonPositiveSize: string := "height and width must be > 0"

  /**
   * The transparency test of line 42. Only RGBA, LA and P images are ever
   * flattened, and an RGB image never is.
   */
  function ChooseBranch(img: Image): (b: Branch)
    ensures b == FlattenOnWhite ==> img.mode in {"RGBA", "LA", "P"}
    ensures img.mode == Rgb ==> b == ConvertToRgb
  {
    if img.mode in AlphaModes || (img.mode == "P" && img.transparencyInfo) then FlattenOnWhite
    else ConvertToRgb
  }

  /**
   * Lines 42-47: flattening pastes the image onto a new white RGB canvas of the
   * same size (a fresh image, so with no transparency info); conversion keeps
   * the size and the info dictionary and changes the mode to RGB.
   */
  function ToRgb(img: Image): (r: Image)
    ensures r.mode == Rgb && r.width == img.width && r.height == img.height
    ensures ChooseBranch(img) == FlattenOnWhite ==> !r.transparencyInfo
    ensures ChooseBranch(img) == ConvertToRgb ==> r.transparencyInfo == img.transparencyInfo
  {
    match ChooseBranch(img)
    case FlattenOnWhite => Image(Rgb, false, img.width, img.height)
    case ConvertToRgb => Image(Rgb, img.transparencyInfo, img.width, img.height)
  }

  /**
   * `resize_to_a4`: the mode and info are kept and the size is fitted to the
   * page. Pillow's `resize` raises when a fitted side was truncated to 0.
   */
  function ResizeToA4(img: Image): (r: Result<Image>)
    requires img.width > 0 && img.height > 0
    ensures r.Success? <==> FitToPage(img.width, img.height).width > 0 && FitToPage(img.width, img.height).height > 0
    ensures r.Success? ==> r.value.mode == img.mode && r.value.transparencyInfo == img.transparencyInfo
    ensures r.Success? ==> Size(r.value.width, r.value.height) == FitToPage(img.width, img.height)
    ensures r.Failure? ==> r.error == NonPositiveSize
  {
    TruncatedIff(img.width, img.height);
    var s := FitToPage(img.width, img.height);
    if Truncated(img.width, img.height) then Failure(NonPositiveSize)
    else Success(Image(img.mode, img.transparencyInfo, s.width, s.height))
  }

  /** The flatten branch is taken for exactly RGBA, LA, and P with transparency info. */
  lemma FlattenExactly(img: Image)
    ensures ChooseBranch(img) == FlattenOnWhite <==>
      img.mode == "RGBA" || img.mode == "LA" || (img.mode == "P" && img.transparencyInfo)
  {
  }

  /** An RGB image goes through conversion and comes out unchanged. */
  lemma OpaqueRgbUnchanged(img: Image)
    requires img.mode == Rgb
    ensures ChooseBranch(img) == ConvertToRgb && ToRgb(img) == img
  {
  }

  /** Normalizing to RGB twice is the same as once; the second pass is always a conversion. */
  lemma ToRgbIdempotent(img: Image)
    ensures ChooseBranch(ToRgb(img)) == ConvertToRgb
    ensures ToRgb(ToRgb(img)) == ToRgb(img)
  {
    OpaqueRgbUnchanged(ToRgb(img));
  }
}
