/** The two forms of the compositing macros in png.h, with and without a division,
    and the scaling macro of pngpriv.h. */
module Composite {
  import opened Arithmetic

  /** fg * alpha + bg * (max - alpha): the composite, scaled by max. */
  function Blend(fg: int, alpha: int, bg: int, max: int): int {
    fg * alpha + bg * (max - alpha)
  }

  /** png_composite, NODIV form: a 16-bit temporary and two shifts. */
  function CompositeNoDiv(fg: byte, alpha: byte, bg: byte): int {
    Shifted(Blend(fg, alpha, bg, 255))
  }

  function Shifted(x: int): int {
    var temp := (x + 128) % 65536;
    (temp + temp / 256) / 256 % 256
  }

  /** png_composite, dividing form. */
  function CompositeDiv(fg: byte, alpha: byte, bg: byte): int {
    Divided(Blend(fg, alpha, bg, 255))
  }

  function Divided(x: int): int {
    (x + 127) / 255 % 256
  }

  /** png_composite_16, NODIV form: 32-bit temporaries. */
  function Composite16NoDiv(fg: uint16, alpha: uint16, bg: uint16): int {
    Shifted16(Blend(fg, alpha, bg, 65535))
  }

  function Shifted16(x: int): int {
    var temp := (x + 32768) % TWO_32;
    (temp + temp / 65536) % TWO_32 / 65536 % 65536
  }

  /** png_composite_16, dividing form. */
  function Composite16Div(fg: uint16, alpha: uint16, bg: uint16): int {
    Divided16(Blend(fg, alpha, bg, 65535))
  }

  function Divided16(x: int): int {
    (x + 32767) % TWO_32 / 65535 % 65536
  }

  /** PNG_DIV65535 and PNG_DIV257 */
  function Div65535(v24: int): int {
    (v24 + 32895) / 65536
  }

  function Div257(v16: uint16): int {
    Div65535(v16 * 255)
  }

  // ---------------------------------------------------------------- properties

  /** A weighted mean lies between its ends. */
  lemma BlendBounds(fg: nat, alpha: nat, bg: nat, max: nat)
    requires alpha <= max
    ensures fg <= bg ==> fg * max <= Blend(fg, alpha, bg, max) <= bg * max
    ensures bg <= fg ==> bg * max <= Blend(fg, alpha, bg, max) <= fg * max
  {
    var beta := max - alpha;
    assert fg * max == fg * alpha + fg * beta;
    assert bg * max == bg * alpha + bg * beta;
    if fg <= bg {
      MulMono(fg, bg, alpha, alpha);
      MulMono(fg, bg, beta, beta);
    } else {
      MulMono(bg, fg, alpha, alpha);
      MulMono(bg, fg, beta, beta);
    }
  }

  lemma BlendSmall(fg: nat, alpha: nat, bg: nat, max: nat)
    requires fg <= max && bg <= max && alpha <= max
    ensures 0 <= Blend(fg, alpha, bg, max) <= max * max
  {
    BlendBounds(fg, alpha, bg, max);
    MulMono(fg, max, max, max);
    MulMono(bg, max, max, max);
  }

  /** The shift trick is exact division, 8 bits. */
  lemma ShiftsDivide(x: nat)
    requires x <= 255 * 255
    ensures ((x + 128) + (x + 128) / 256) / 256 == (x + 127) / 255
  {
    var q, r := (x + 127) / 255, (x + 127) % 255;
    assert x + 128 == 255 * q + r + 1 && 0 <= r < 255 && q <= 255;
    var t := x + 128;
    assert t == 256 * q + (r + 1 - q);
    var k := t / 256;
    assert k == q || k == q - 1;
  }

  /** ... and 16 bits. */
  lemma ShiftsDivide16(x: nat)
    requires x <= 65535 * 65535
    ensures ((x + 32768) + (x + 32768) / 65536) / 65536 == (x + 32767) / 65535
  {
    var q, r := (x + 32767) / 65535, (x + 32767) % 65535;
    assert x + 32768 == 65535 * q + r + 1 && 0 <= r < 65535 && q <= 65535;
    var t := x + 32768;
    assert t == 65536 * q + (r + 1 - q);
    var k := t / 65536;
    assert k == q || k == q - 1;
  }

  lemma ShiftedIsDivided(x: nat)
    requires x <= 255 * 255
    ensures x + 128 < 65536 && Shifted(x) == Divided(x) == (x + 127) / 255
  {
    ShiftsDivide(x);
    var t := x + 128;
    assert t % 65536 == t;
    assert (t + t / 256) / 256 <= 255;
  }

  lemma ShiftedIsDivided16(x: nat)
    requires x <= 65535 * 65535
    ensures x + 32768 + (x + 32768) / 65536 < TWO_32
    ensures Shifted16(x) == Divided16(x) == (x + 32767) / 65535
  {
    ShiftsDivide16(x);
    var t := x + 32768;
    assert t % TWO_32 == t && t / 65536 <= 65534;
    var u := t + t / 65536;
    assert u % TWO_32 == u && (x + 32767) % TWO_32 == x + 32767;
    assert u / 65536 <= 65535;
  }

  /** The two forms agree on all inputs; no temporary wraps. */
  lemma FormsAgree(fg: byte, alpha: byte, bg: byte)
    ensures Blend(fg, alpha, bg, 255) + 128 < 65536
    ensures CompositeNoDiv(fg, alpha, bg) == CompositeDiv(fg, alpha, bg)
  {
    hide Blend, Shifted, Divided;
    BlendSmall(fg, alpha, bg, 255);
    ShiftedIsDivided(Blend(fg, alpha, bg, 255));
  }

  lemma FormsAgree16(fg: uint16, alpha: uint16, bg: uint16)
    ensures var temp := Blend(fg, alpha, bg, 65535) + 32768;
      temp + temp / 65536 < TWO_32
    ensures Composite16NoDiv(fg, alpha, bg) == Composite16Div(fg, alpha, bg)
  {
    hide Blend, Shifted16, Divided16;
    BlendSmall(fg, alpha, bg, 65535);
    ShiftedIsDivided16(Blend(fg, alpha, bg, 65535));
  }

  predicate Between(a: int, x: int, b: int) {
    a <= x <= b || b <= x <= a
  }

  /** The composite is the nearest integer to the weighted mean, lies between background
      and foreground, and meets them at the two ends of the alpha range. */
  lemma CompositeMeaning(fg: byte, alpha: byte, bg: byte)
    ensures -127 <= 255 * CompositeNoDiv(fg, alpha, bg) - Blend(fg, alpha, bg, 255) <= 127
    ensures Between(bg, CompositeNoDiv(fg, alpha, bg), fg)
    ensures alpha == 0 ==> CompositeNoDiv(fg, alpha, bg) == bg
    ensures alpha == 255 ==> CompositeNoDiv(fg, alpha, bg) == fg
  {
    hide Shifted, Divided;
    BlendSmall(fg, alpha, bg, 255);
    BlendBounds(fg, alpha, bg, 255);
    BlendEnds(fg, bg, 255);
    hide Blend;
    ShiftedIsDivided(Blend(fg, alpha, bg, 255));
    DivBetween(Blend(fg, alpha, bg, 255), fg, bg);
  }

  lemma BlendEnds(fg: int, bg: int, max: int)
    ensures Blend(fg, 0, bg, max) == bg * max && Blend(fg, max, bg, max) == fg * max
  {
  }

  lemma DivBetween(x: int, fg: byte, bg: byte)
    requires if fg <= bg then fg * 255 <= x <= bg * 255 else bg * 255 <= x <= fg * 255
    ensures Between(bg, (x + 127) / 255, fg)
  {
  }

  lemma CompositeMeaning16(fg: uint16, alpha: uint16, bg: uint16)
    ensures -32767 <= 65535 * Composite16NoDiv(fg, alpha, bg) - Blend(fg, alpha, bg, 65535) <= 32767
    ensures Between(bg, Composite16NoDiv(fg, alpha, bg), fg)
    ensures alpha == 0 ==> Composite16NoDiv(fg, alpha, bg) == bg
    ensures alpha == 65535 ==> Composite16NoDiv(fg, alpha, bg) == fg
  {
    hide Shifted16, Divided16;
    BlendSmall(fg, alpha, bg, 65535);
    BlendBounds(fg, alpha, bg, 65535);
    BlendEnds(fg, bg, 65535);
    hide Blend;
    ShiftedIsDivided16(Blend(fg, alpha, bg, 65535));
    DivBetween16(Blend(fg, alpha, bg, 65535), fg, bg);
  }

  lemma DivBetween16(x: int, fg: uint16, bg: uint16)
    requires if fg <= bg then fg * 65535 <= x <= bg * 65535 else bg * 65535 <= x <= fg * 65535
    ensures Between(bg, (x + 32767) / 65535, fg)
  {
  }

  /** PNG_DIV257 is division by 257 rounded to nearest, and the inverse of the scaling
      from 8 to 16 bits. */
  lemma Div257Rounds(v: uint16)
    ensures Div257(v) == (v + 128) / 257
    ensures 0 <= Div257(v) <= 255
    ensures -257 <= 2 * (257 * Div257(v) - v) <= 257
    ensures v % 257 == 0 ==> 257 * Div257(v) == v
  {
    var q, r := (v + 128) / 257, (v + 128) % 257;
    assert v as int + 128 == 257 * q + r && 0 <= r < 257;
    assert (v as int) * 255 + 32895 == 65536 * q + (255 * r - q + 255);
  }
}
