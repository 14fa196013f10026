/** The integer arithmetic of `add_logo` (main.py:103-143) and
    `add_caption_strip` (main.py:146-186): the shrink-only resize rule and the
    centred positions. Quantities that the source computes in floating point
    (`int(base.width * scale)`, `int(target_w / aspect)`, the padding
    `int(min(w, h) * 0.08)`, the strip height and the text's bounding box) are
    taken as integer parameters. */
module Layout {

  datatype Size = Size(width: int, height: int)

  datatype Point = Point(x: int, y: int)

  /** `(outer - inner) // 2`. Python's `//` floors; Dafny's `/` by the positive
      divisor 2 rounds the same way, also when `inner` exceeds `outer`. The
      offset leaves margins on both sides that differ by at most one pixel, the
      extra pixel going to the far side. */
  function CenterOffset(outer: int, inner: int): (off: int)
    ensures 0 <= (outer - inner - off) - off <= 1
  {
    (outer - inner) / 2
  }

  function Min(a: int, b: int): int {
    if a <= b then a else b
  }

  /** The logo size after the resize step: the logo is shrunk to `targetW`
      wide (and `shrunkH` high) only when it is wider than that, never grown. */
  function FitLogo(logo: Size, targetW: int, shrunkH: int): (r: Size)
    ensures r.width == Min(logo.width, targetW)
    ensures r.width <= logo.width
    ensures logo.width <= targetW ==> r == logo
    ensures logo.width > targetW ==> r == Size(targetW, shrunkH)
  {
    if logo.width > targetW then Size(targetW, shrunkH) else logo
  }

  /** Where `add_logo` pastes: the white backdrop, `pad` wider than the logo on
      every side, at `(cx, cy)`, and the logo at `(cx + pad, cy + pad)`. */
  datatype LogoPlacement = LogoPlacement(backdrop: Size, backdropAt: Point, logoAt: Point)

  function PlaceLogo(base: Size, logo: Size, pad: nat): (p: LogoPlacement)
    ensures p.backdrop == Size(logo.width + 2 * pad, logo.height + 2 * pad)
    ensures p.logoAt == Point(p.backdropAt.x + pad, p.backdropAt.y + pad)
  {
    var backdrop := Size(logo.width + 2 * pad, logo.height + 2 * pad);
    var cx := CenterOffset(base.width, backdrop.width);
    var cy := CenterOffset(base.height, backdrop.height);
    LogoPlacement(backdrop, Point(cx, cy), Point(cx + pad, cy + pad))
  }

  /** The backdrop is centred on the QR image, and so is the logo itself: its
      position is the centred offset of the logo's own size, whatever the pad. */
  lemma LogoCentred(base: Size, logo: Size, pad: nat)
    ensures var p := PlaceLogo(base, logo, pad);
      p.backdropAt == Point(CenterOffset(base.width, p.backdrop.width),
                            CenterOffset(base.height, p.backdrop.height))
      && p.logoAt == Point(CenterOffset(base.width, logo.width), CenterOffset(base.height, logo.height))
  {
    var p := PlaceLogo(base, logo, pad);
    var cx := CenterOffset(base.width, logo.width + 2 * pad);
    assert cx + pad == CenterOffset(base.width, logo.width);
    var cy := CenterOffset(base.height, logo.height + 2 * pad);
    assert cy + pad == CenterOffset(base.height, logo.height);
  }

  /** The canvas of `add_caption_strip` and where its text is drawn. */
  datatype CaptionLayout = CaptionLayout(canvas: Size, textAt: Point)

  /** The canvas is the QR image with a strip `stripH` high added below; the
      text box `text` is centred across the width and within the strip. */
  function LayOutCaption(base: Size, stripH: int, text: Size): (c: CaptionLayout)
    ensures c.canvas == Size(base.width, base.height + stripH)
    ensures 0 <= (base.width - text.width - c.textAt.x) - c.textAt.x <= 1
    ensures var top := c.textAt.y - base.height;
      var bottom := base.height + stripH - (c.textAt.y + text.height);
      0 <= bottom - top <= 1
  {
    CaptionLayout(Size(base.width, base.height + stripH),
                  Point(CenterOffset(base.width, text.width),
                        base.height + CenterOffset(stripH, text.height)))
  }
}
