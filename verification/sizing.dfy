/**
 * How the show pass sizes an image: the width cap taken from the settings,
 * and the `width="..." height="..."` attribute computed when the link carries
 * no custom attributes. Arithmetic on the height is done in reals, as Python
 * turns it into a float once the image is scaled down.
 */
module Sizing {
  import opened Wrappers

  /** The cap used when the setting is missing, zero or negative. */
  const DefaultMaxWidth: int := 1024

  /** `if not max_width or max_width < 0: max_width = 1024`. */
  function EffectiveMaxWidth(setting: Option<int>): (m: int)
    ensures m > 0
    ensures setting.Some? && setting.value > 0 <==> setting == Some(m)
    ensures m != DefaultMaxWidth ==> setting == Some(m)
  {
    if setting.None? || setting.value == 0 || setting.value < 0 then DefaultMaxWidth
    else setting.value
  }

  /** The attribute text placed in the `<img>` tag. */
  datatype Attr =
    | Custom(text: string)           // what `check_imgattr` found, used verbatim
    | Dims(width: int, height: real)  // `width="{}" height="{}"`
    | NoAttr                          // the empty string

  /** The sizing step either yields an attribute or raises `TypeError` on comparing `None` with `0`. */
  datatype Sizing = Sized(attr: Attr) | TypeError

  /** Scale `w` x `h` down to at most `maxWidth` wide. */
  function Fit(w: int, h: int, maxWidth: int): (r: (int, real))
    requires w > 0 && h > 0 && maxWidth > 0
    ensures r.0 == (if w <= maxWidth then w else maxWidth)
    ensures r.0 as real * h as real == r.1 * w as real
    ensures 0.0 < r.1 <= h as real
  {
    if w > maxWidth then
      var m := maxWidth as real / w as real;
      (maxWidth, h as real * m)
    else
      (w, h as real)
  }

  /**
   * The attribute the show pass settles on (as written): a non-empty custom
   * attribute wins; otherwise `w > 0 and h > 0` is evaluated left to right,
   * raising on `None` and giving up on a non-positive side.
   */
  function SizeAttr(custom: string, w: Option<int>, h: Option<int>, maxWidth: int): (r: Sizing)
    requires maxWidth > 0
    ensures custom != "" ==> r == Sized(Custom(custom))
    ensures r.TypeError? <==> custom == "" && (w.None? || (w.value > 0 && h.None?))
    ensures r.Sized? && r.attr.Dims? ==>
      w.Some? && h.Some? && w.value > 0 && h.value > 0 && r.attr.width <= maxWidth
    ensures r.Sized? && r.attr.Custom? ==> r.attr.text == custom
  {
    if custom != "" then Sized(Custom(custom))
    else
      match w
      case None => TypeError
      case Some(wv) =>
        if !(wv > 0) then Sized(NoAttr)
        else
          match h
          case None => TypeError
          case Some(hv) =>
            if !(hv > 0) then Sized(NoAttr)
            else
              var (fw, fh) := Fit(wv, hv, maxWidth);
              Sized(Dims(fw, fh))
  }

  /** The sizing step with a missing dimension treated like a non-positive one: no attribute. */
  function SizeAttrFixed(custom: string, w: Option<int>, h: Option<int>, maxWidth: int): (r: Attr)
    requires maxWidth > 0
    ensures custom != "" ==> r == Custom(custom)
    ensures r.Dims? ==> w.Some? && h.Some? && w.value > 0 && h.value > 0 && r.width <= maxWidth
    ensures custom == "" && (w.None? || h.None?) ==> r == NoAttr
  {
    if custom != "" then Custom(custom)
    else if w.Some? && h.Some? && w.value > 0 && h.value > 0 then
      var (fw, fh) := Fit(w.value, h.value, maxWidth);
      Dims(fw, fh)
    else NoAttr
  }

  /** The corrected step agrees with the original wherever the original does not raise. */
  lemma FixedAgrees(custom: string, w: Option<int>, h: Option<int>, maxWidth: int)
    requires maxWidth > 0
    requires SizeAttr(custom, w, h, maxWidth).Sized?
    ensures SizeAttr(custom, w, h, maxWidth).attr == SizeAttrFixed(custom, w, h, maxWidth)
  {
  }

  /** A size the scan could not read, with no custom attribute, makes the original raise. */
  lemma UnknownSizeRaises(maxWidth: int)
    requires maxWidth > 0
    ensures SizeAttr("", None, None, maxWidth) == TypeError
    ensures SizeAttrFixed("", None, None, maxWidth) == NoAttr
  {
  }

  /** A negative signed PNG dimension yields no size attribute. */
  lemma NegativeSideNoAttr(w: int, h: int, maxWidth: int)
    requires maxWidth > 0 && (w <= 0 || h <= 0)
    ensures SizeAttr("", Some(w), Some(h), maxWidth) == Sized(NoAttr)
  {
  }

  /** An image no wider than the cap keeps its own size; a wider one is scaled to the cap, keeping its aspect ratio. */
  lemma FitWithinCap(w: int, h: int, maxWidth: int)
    requires w > 0 && h > 0 && maxWidth > 0
    ensures SizeAttr("", Some(w), Some(h), maxWidth) == Sized(Dims(Fit(w, h, maxWidth).0, Fit(w, h, maxWidth).1))
    ensures w <= maxWidth ==> Fit(w, h, maxWidth) == (w, h as real)
    ensures w > maxWidth ==> Fit(w, h, maxWidth).0 == maxWidth && Fit(w, h, maxWidth).1 * w as real == h as real * maxWidth as real
  {
  }

  /** A 2048 x 1024 image under the default cap is shown 1024 x 512. */
  lemma HalvedExample()
    ensures SizeAttr("", Some(2048), Some(1024), EffectiveMaxWidth(None)) == Sized(Dims(1024, 512.0))
  {
    assert Fit(2048, 1024, 1024).1 == 512.0;
  }

}
