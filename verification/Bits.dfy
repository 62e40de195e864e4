/** 32-bit colours as sets of bits. */
module Bits {

  /** A 32-bit ARGB value. */
  type Color = bv32

  const OPAQUE_BLACK: Color := 0xFF00_0000
  const RGB: Color := 0x00FF_FFFF

  function Alpha(c: Color): Color { c >> 24 }

  predicate FullAlpha(color: Color) { color & OPAQUE_BLACK == OPAQUE_BLACK }

  lemma AlphaByte(c: Color)
    ensures FullAlpha(c) <==> Alpha(c) == 0xFF
    ensures Alpha(c) <= 0xFF
  {
  }

  /** A single bit of red, green or blue. */
  predicate IsColorBit(m: Color) { m != 0 && m & (m - 1) == 0 && m & RGB == m }

  predicate IsSet(c: Color, m: Color) { c & m != 0 }

  function Both(a: Color, b: Color): Color { a & b }
  function Either(a: Color, b: Color): Color { a | b }
  function Differing(a: Color, b: Color): Color { a ^ b }

  /** The colour with its alpha channel cleared, and with its colour bits inverted. */
  function RgbOnly(c: Color): Color { Both(RGB, c) }
  function Inverted(c: Color): Color { Differing(c, RGB) }

  /** The colour an image without an alpha channel shows. */
  function Opaqued(color: Color): Color { Either(color, OPAQUE_BLACK) }

  lemma Commute(a: Color, b: Color)
    ensures Both(a, b) == Both(b, a) && Either(a, b) == Either(b, a) && Differing(a, b) == Differing(b, a)
  {
  }

  lemma BothSet(a: Color, b: Color, m: Color)
    requires IsColorBit(m) && IsSet(a, m) && IsSet(b, m)
    ensures IsSet(Both(a, b), m)
  {
  }

  lemma BothClear(a: Color, b: Color, m: Color)
    requires !IsSet(a, m)
    ensures !IsSet(Both(a, b), m)
  {
  }

  lemma EitherSet(a: Color, b: Color, m: Color)
    requires IsSet(a, m)
    ensures IsSet(Either(a, b), m)
  {
  }

  lemma EitherClear(a: Color, b: Color, m: Color)
    requires !IsSet(a, m) && !IsSet(b, m)
    ensures !IsSet(Either(a, b), m)
  {
  }

  lemma OneDiffers(a: Color, b: Color, m: Color)
    requires IsColorBit(m) && IsSet(a, m) && !IsSet(b, m)
    ensures IsSet(Differing(a, b), m)
  {
  }

  lemma NoneDiffers(a: Color, b: Color, m: Color)
    requires !IsSet(a, m) && !IsSet(b, m)
    ensures !IsSet(Differing(a, b), m)
  {
  }

  lemma BothDiffer(a: Color, b: Color, m: Color)
    requires IsColorBit(m) && IsSet(a, m) && IsSet(b, m)
    ensures !IsSet(Differing(a, b), m)
  {
  }

  lemma BitOfBoth(a: Color, b: Color, m: Color)
    requires IsColorBit(m)
    ensures IsSet(Both(a, b), m) <==> IsSet(a, m) && IsSet(b, m)
  {
    hide IsSet, IsColorBit, Both, Either, Differing;
    Commute(a, b);
    if !IsSet(a, m) {
      BothClear(a, b, m);
    } else if !IsSet(b, m) {
      BothClear(b, a, m);
    } else {
      BothSet(a, b, m);
    }
  }

  lemma BitOfEither(a: Color, b: Color, m: Color)
    ensures IsSet(Either(a, b), m) <==> IsSet(a, m) || IsSet(b, m)
  {
    hide IsSet, Both, Either, Differing;
    Commute(a, b);
    if IsSet(a, m) {
      EitherSet(a, b, m);
    } else if IsSet(b, m) {
      EitherSet(b, a, m);
    } else {
      EitherClear(a, b, m);
    }
  }

  lemma BitOfDiffering(a: Color, b: Color, m: Color)
    requires IsColorBit(m)
    ensures IsSet(Differing(a, b), m) <==> IsSet(a, m) != IsSet(b, m)
  {
    hide IsSet, IsColorBit, Both, Either, Differing;
    Commute(a, b);
    if IsSet(a, m) {
      if IsSet(b, m) {
        BothDiffer(a, b, m);
      } else {
        OneDiffers(a, b, m);
      }
    } else if IsSet(b, m) {
      OneDiffers(b, a, m);
    } else {
      NoneDiffers(a, b, m);
    }
  }

  lemma RgbHasAll(m: Color)
    requires IsColorBit(m)
    ensures IsSet(RGB, m)
  {
  }

  lemma BitOfBlack(m: Color)
    requires IsColorBit(m)
    ensures !IsSet(OPAQUE_BLACK, m)
  {
  }

  lemma BitOfWhite(m: Color)
    requires IsColorBit(m)
    ensures IsSet(0xFFFF_FFFF, m)
  {
  }

  lemma AsPairs(c: Color)
    ensures RgbOnly(c) == Both(RGB, c) && Inverted(c) == Differing(c, RGB) && Opaqued(c) == Either(c, OPAQUE_BLACK)
  {
    hide Both, Either, Differing;
  }

  lemma BitsOfOne(c: Color, m: Color)
    requires IsColorBit(m)
    ensures IsSet(RgbOnly(c), m) <==> IsSet(c, m)
    ensures IsSet(Inverted(c), m) <==> !IsSet(c, m)
    ensures IsSet(Opaqued(c), m) <==> IsSet(c, m)
  {
    hide IsSet, IsColorBit, Both, Either, Differing, RgbOnly, Inverted, Opaqued, RGB, OPAQUE_BLACK;
    AsPairs(c);
    RgbHasAll(m);
    BitOfBlack(m);
    BitOfBoth(RGB, c, m);
    BitOfDiffering(c, RGB, m);
    BitOfEither(c, OPAQUE_BLACK, m);
  }

  lemma AlphaOfBoth(d: Color, c: Color)
    ensures Alpha(Both(d, Opaqued(c))) == Alpha(d)
  {
  }

  lemma AlphaOfEither(d: Color, c: Color)
    ensures Alpha(Either(d, RgbOnly(c))) == Alpha(d)
  {
  }

  lemma AlphaOfDiffering(d: Color, c: Color)
    ensures Alpha(Differing(d, RgbOnly(c))) == Alpha(d)
  {
  }

  lemma AlphaOfInverted(c: Color)
    ensures Alpha(Inverted(c)) == Alpha(c)
  {
  }

  lemma AlphaOfConstants()
    ensures Alpha(OPAQUE_BLACK) == 0xFF && Alpha(0xFFFF_FFFF) == 0xFF
  {
  }

  lemma LowestIsBit(x: Color)
    requires x != 0 && Alpha(x) == 0
    ensures IsColorBit(x & (0 - x))
  {
  }

  lemma LowestIsSet(x: Color)
    requires x != 0
    ensures IsSet(x, x & (0 - x))
  {
  }

  lemma AlphaCancels(q: Color, r: Color)
    requires Alpha(q) == Alpha(r) && q != r
    ensures Differing(q, r) != 0 && Alpha(Differing(q, r)) == 0
  {
  }

  /** A bit in which two colours with one alpha channel differ. */
  lemma SomeBitDiffers(q: Color, r: Color) returns (m: Color)
    requires Alpha(q) == Alpha(r) && q != r
    ensures IsColorBit(m) && IsSet(q, m) != IsSet(r, m)
  {
    hide Alpha, Differing, IsColorBit, IsSet;
    var x := Differing(q, r);
    AlphaCancels(q, r);
    m := x & (0 - x);
    LowestIsBit(x);
    LowestIsSet(x);
    BitOfDiffering(q, r, m);
  }

  lemma OpaquedIsOpaque(color: Color)
    ensures FullAlpha(Opaqued(color)) && (Opaqued(color) == color <==> FullAlpha(color))
  {
  }

  lemma TransparentIsNotOpaque()
    ensures !FullAlpha(0)
  {
  }
}
