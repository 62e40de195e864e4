/** What the pixel operators of src/common/surface.c compute: the transfer functions,
    blending, masks, and the client's operator OVER. */
module Operators {
  import opened Bits

  // -------------------------------------------------------- transfer functions

  datatype TransferFn =
    | Black | White | Src | Dest | NSrc | NDest | And | Nand | Or | Nor
    | Xor | Xnor | NSrcAnd | NSrcNand | NSrcOr | NSrcNor

  /** __guac_common_surface_transfer_int: the colour the destination is given. */
  function TransferInt(op: TransferFn, src: Color, dst: Color): Color {
    match op
    case Black => OPAQUE_BLACK
    case White => 0xFFFF_FFFF
    case Src => src
    case Dest => dst
    case NSrc => Inverted(src)
    case NDest => Inverted(dst)
    case And => Both(dst, Opaqued(src))
    case Nand => Inverted(Both(dst, Opaqued(src)))
    case Or => Either(dst, RgbOnly(src))
    case Nor => Inverted(Either(dst, RgbOnly(src)))
    case Xor => Differing(dst, RgbOnly(src))
    case Xnor => Inverted(Differing(dst, RgbOnly(src)))
    case NSrcAnd => Both(dst, Opaqued(Inverted(src)))
    case NSrcNand => Inverted(Both(dst, Opaqued(Inverted(src))))
    case NSrcOr => Either(dst, RgbOnly(Inverted(src)))
    case NSrcNor => Inverted(Either(dst, RgbOnly(Inverted(src))))
  }

  /** The Boolean function a transfer function is named after. */
  predicate Boolean(op: TransferFn, s: bool, d: bool) {
    match op
    case Black => false
    case White => true
    case Src => s
    case Dest => d
    case NSrc => !s
    case NDest => !d
    case And => s && d
    case Nand => !(s && d)
    case Or => s || d
    case Nor => !(s || d)
    case Xor => s != d
    case Xnor => s == d
    case NSrcAnd => !s && d
    case NSrcNand => !(!s && d)
    case NSrcOr => !s || d
    case NSrcNor => !(!s || d)
  }

  /** The number an instruction names the function by
      (src/libguac/guacamole/protocol-types.h). */
  function Code(op: TransferFn): nat {
    match op
    case Black => 0x0
    case White => 0xF
    case Src => 0x3
    case Dest => 0x5
    case NSrc => 0xC
    case NDest => 0xA
    case And => 0x1
    case Nand => 0xE
    case Or => 0x7
    case Nor => 0x8
    case Xor => 0x6
    case Xnor => 0x9
    case NSrcAnd => 0x4
    case NSrcNand => 0xB
    case NSrcOr => 0xD
    case NSrcNor => 0x2
  }

  /** The binary digits of the number are the truth table: from the highest, for neither
      bit set, destination only, source only, and both. */
  lemma CodeIsTable(op: TransferFn, s: bool, d: bool)
    ensures Boolean(op, s, d) <==> Code(op) / (if s then if d then 1 else 2 else if d then 4 else 8) % 2 == 1
  {
  }

  function AlphaFrom(op: TransferFn, s: Color, d: Color): Color {
    if op in {Black, White} then 0xFF else if op in {Src, NSrc} then Alpha(s) else Alpha(d)
  }

  /** A result has the alpha channel of one of the pixels, or is opaque where the
      function is constant; and every bit of its colour is the Boolean function of their
      bits. */
  ghost predicate Follows(op: TransferFn, s: Color, d: Color, r: Color) {
    && Alpha(r) == AlphaFrom(op, s, d)
    && forall m :: IsColorBit(m) ==> (IsSet(r, m) <==> Boolean(op, IsSet(s, m), IsSet(d, m)))
  }

  lemma BitOfResult(op: TransferFn, s: Color, d: Color, m: Color)
    requires IsColorBit(m)
    ensures IsSet(TransferInt(op, s, d), m) <==> Boolean(op, IsSet(s, m), IsSet(d, m))
  {
    hide IsColorBit, IsSet, Both, Either, Differing, RgbOnly, Inverted, Opaqued, OPAQUE_BLACK;
    BitOfBlack(m);
    BitOfWhite(m);
    forall c
      ensures (IsSet(RgbOnly(c), m) <==> IsSet(c, m)) && (IsSet(Inverted(c), m) <==> !IsSet(c, m)) &&
              (IsSet(Opaqued(c), m) <==> IsSet(c, m))
    {
      BitsOfOne(c, m);
    }
    forall a, b ensures IsSet(Both(a, b), m) <==> IsSet(a, m) && IsSet(b, m) { BitOfBoth(a, b, m); }
    forall a, b ensures IsSet(Either(a, b), m) <==> IsSet(a, m) || IsSet(b, m) { BitOfEither(a, b, m); }
    forall a, b ensures IsSet(Differing(a, b), m) <==> IsSet(a, m) != IsSet(b, m) { BitOfDiffering(a, b, m); }
  }

  lemma AlphaOfResult(op: TransferFn, s: Color, d: Color)
    ensures Alpha(TransferInt(op, s, d)) == AlphaFrom(op, s, d)
  {
    hide Alpha, Both, Either, Differing, RgbOnly, Inverted, Opaqued, OPAQUE_BLACK;
    AlphaOfConstants();
    forall c ensures Alpha(Inverted(c)) == Alpha(c) { AlphaOfInverted(c); }
    forall c ensures Alpha(Both(d, Opaqued(c))) == Alpha(d) { AlphaOfBoth(d, c); }
    forall c ensures Alpha(Either(d, RgbOnly(c))) == Alpha(d) { AlphaOfEither(d, c); }
    forall c ensures Alpha(Differing(d, RgbOnly(c))) == Alpha(d) { AlphaOfDiffering(d, c); }
  }

  /** Every transfer function is, bit by bit, what its name says. */
  lemma TransferFollows(op: TransferFn, s: Color, d: Color)
    ensures Follows(op, s, d, TransferInt(op, s, d))
  {
    hide TransferInt, Alpha, AlphaFrom, IsSet, Boolean, IsColorBit;
    AlphaOfResult(op, s, d);
    forall m | IsColorBit(m) ensures IsSet(TransferInt(op, s, d), m) <==> Boolean(op, IsSet(s, m), IsSet(d, m)) {
      BitOfResult(op, s, d, m);
    }
  }

  /** There is no other such result. */
  lemma FollowsIsUnique(op: TransferFn, s: Color, d: Color, q: Color, r: Color)
    requires Follows(op, s, d, q) && Follows(op, s, d, r)
    ensures q == r
  {
    hide Alpha, AlphaFrom, IsSet, Boolean, IsColorBit;
    if q != r {
      var m := SomeBitDiffers(q, r);
    }
  }

  /** Applying the function a second time changes nothing. */
  predicate Repeatable(op: TransferFn) {
    op in {Black, White, Src, Dest, NSrc, And, Or, NSrcAnd, NSrcOr}
  }

  lemma RepeatableOpsAreIdempotent(op: TransferFn, src: Color, dst: Color)
    requires Repeatable(op)
    ensures TransferInt(op, src, TransferInt(op, src, dst)) == TransferInt(op, src, dst)
  {
    hide TransferInt, Alpha, IsSet, IsColorBit;
    var r := TransferInt(op, src, dst);
    TransferFollows(op, src, dst);
    TransferFollows(op, src, r);
    assert Follows(op, src, r, r);
    FollowsIsUnique(op, src, r, TransferInt(op, src, r), r);
  }

  lemma OtherOpsAreNotIdempotent(op: TransferFn)
    requires !Repeatable(op)
    ensures exists src, dst :: TransferInt(op, src, TransferInt(op, src, dst)) != TransferInt(op, src, dst)
  {
    var zero, ones: Color := 0, RGB;
    if op in {Nand, Xor, NSrcNor} {
      assert TransferInt(op, ones, TransferInt(op, ones, ones)) != TransferInt(op, ones, ones);
    } else {
      assert TransferInt(op, zero, TransferInt(op, zero, ones)) != TransferInt(op, zero, ones);
    }
  }

  lemma SrcCopies(s: Color, d: Color)
    ensures TransferInt(Src, s, d) == s
  {
  }

  lemma IgnoresSource(op: TransferFn, s: Color, t: Color, d: Color)
    ensures op in {Black, White, Dest, NDest} ==> TransferInt(op, s, d) == TransferInt(op, t, d)
  {
  }

  lemma IgnoresDest(op: TransferFn, s: Color, d: Color, e: Color)
    ensures op in {Black, White, Src, NSrc} ==> TransferInt(op, s, d) == TransferInt(op, s, e)
  {
  }

  /** Which pixel the result takes its alpha channel from. */
  lemma AlphaOf(op: TransferFn, s: Color, d: Color)
    ensures op in {Black, White} ==> FullAlpha(TransferInt(op, s, d))
    ensures op in {Src, NSrc} ==> (FullAlpha(TransferInt(op, s, d)) <==> FullAlpha(s))
    ensures op !in {Black, White, Src, NSrc} ==> (FullAlpha(TransferInt(op, s, d)) <==> FullAlpha(d))
  {
    hide FullAlpha, TransferInt, Alpha;
    AlphaOfResult(op, s, d);
    AlphaByte(TransferInt(op, s, d));
    AlphaByte(s);
    AlphaByte(d);
  }

  // ------------------------------------------------------------------- blending

  datatype Channel = A | R | G | B

  /** One component of a colour, from 0 to 255. */
  function Part(c: Color, channel: Channel): Color {
    match channel
    case A => Alpha(c)
    case R => (c >> 16) & 0xFF
    case G => (c >> 8) & 0xFF
    case B => c & 0xFF
  }

  function FromParts(a: Color, r: Color, g: Color, b: Color): Color { (a << 24) | (r << 16) | (g << 8) | b }

  /** guac_common_surface_blend_component, clamped to one byte. */
  function BlendComponent(dst: Color, src: Color, alpha: Color): Color {
    var blended := src + dst * (0xFF - alpha);
    if blended > 0xFF then 0xFF else blended
  }

  /** guac_common_surface_argb_blend. */
  function ArgbBlend(dst: Color, src: Color): Color {
    var alpha := Part(src, A);
    if alpha == 0xFF || Part(dst, A) == 0 then src
    else if alpha == 0 then dst
    else
      FromParts(BlendComponent(Part(dst, A), alpha, alpha), BlendComponent(Part(dst, R), Part(src, R), alpha),
                BlendComponent(Part(dst, G), Part(src, G), alpha), BlendComponent(Part(dst, B), Part(src, B), alpha))
  }

  lemma AlphaBack(a: Color, r: Color, g: Color, b: Color)
    requires a <= 0xFF && r <= 0xFF && g <= 0xFF && b <= 0xFF
    ensures Part(FromParts(a, r, g, b), A) == a
  {
  }

  lemma RedBack(a: Color, r: Color, g: Color, b: Color)
    requires a <= 0xFF && r <= 0xFF && g <= 0xFF && b <= 0xFF
    ensures Part(FromParts(a, r, g, b), R) == r
  {
  }

  lemma GreenBack(a: Color, r: Color, g: Color, b: Color)
    requires a <= 0xFF && r <= 0xFF && g <= 0xFF && b <= 0xFF
    ensures Part(FromParts(a, r, g, b), G) == g
  {
  }

  lemma BlueBack(a: Color, r: Color, g: Color, b: Color)
    requires a <= 0xFF && r <= 0xFF && g <= 0xFF && b <= 0xFF
    ensures Part(FromParts(a, r, g, b), B) == b
  {
  }

  lemma AlphaIsPart(c: Color)
    ensures Part(c, A) == Alpha(c)
  {
  }

  lemma BlendedIsByte(d: Color, s: Color, alpha: Color)
    ensures BlendComponent(d, s, alpha) <= 0xFF
  {
  }

  /** Blending does nothing where the source is opaque or one of the pixels is
      transparent. */
  lemma BlendedAtEnds(dst: Color, src: Color)
    ensures Part(src, A) == 0xFF || Part(dst, A) == 0 ==> ArgbBlend(dst, src) == src
    ensures Part(src, A) == 0 && Part(dst, A) != 0 ==> ArgbBlend(dst, src) == dst
  {
    hide FromParts, BlendComponent, Part;
  }

  lemma BlendUnfolds(dst: Color, src: Color)
    requires Part(src, A) != 0 && Part(src, A) != 0xFF && Part(dst, A) != 0
    ensures var alpha := Part(src, A);
            ArgbBlend(dst, src) ==
            FromParts(BlendComponent(Part(dst, A), alpha, alpha), BlendComponent(Part(dst, R), Part(src, R), alpha),
                      BlendComponent(Part(dst, G), Part(src, G), alpha), BlendComponent(Part(dst, B), Part(src, B), alpha))
  {
    hide FromParts, BlendComponent, Part;
  }

  /** Everywhere else it treats the four components alike. */
  lemma BlendedPart(dst: Color, src: Color, channel: Channel)
    requires Part(src, A) != 0 && Part(src, A) != 0xFF && Part(dst, A) != 0
    ensures Part(ArgbBlend(dst, src), channel) == BlendComponent(Part(dst, channel), Part(src, channel), Part(src, A))
  {
    hide FromParts, BlendComponent, Part, ArgbBlend;
    var alpha := Part(src, A);
    var a, r := BlendComponent(Part(dst, A), alpha, alpha), BlendComponent(Part(dst, R), Part(src, R), alpha);
    var g, b := BlendComponent(Part(dst, G), Part(src, G), alpha), BlendComponent(Part(dst, B), Part(src, B), alpha);
    BlendUnfolds(dst, src);
    BlendedIsByte(Part(dst, A), alpha, alpha);
    BlendedIsByte(Part(dst, R), Part(src, R), alpha);
    BlendedIsByte(Part(dst, G), Part(src, G), alpha);
    BlendedIsByte(Part(dst, B), Part(src, B), alpha);
    match channel
    case A => AlphaBack(a, r, g, b);
    case R => RedBack(a, r, g, b);
    case G => GreenBack(a, r, g, b);
    case B => BlueBack(a, r, g, b);
  }

  /** A blended component is the sum of source and weighted destination, or 0xFF. */
  lemma BlendIsClampedSum(d: Color, s: Color, alpha: Color)
    ensures s + d * (0xFF - alpha) <= 0xFF ==> BlendComponent(d, s, alpha) == s + d * (0xFF - alpha)
    ensures s + d * (0xFF - alpha) > 0xFF ==> BlendComponent(d, s, alpha) == 0xFF
  {
  }

  /** The comment promises the operator OVER of Porter and Duff, which is s + d * (0xFF -
      alpha) / 0xFF, but nothing divides: on premultiplied components the sum is that only
      over a destination component of zero. */
  lemma SumIsOverIff(d: Color, s: Color, alpha: Color)
    requires d <= 0xFF && s <= alpha && 0 < alpha < 0xFF && s + d * (0xFF - alpha) <= 0xFF
    ensures 0xFF * (s + d * (0xFF - alpha)) == 0xFF * s + d * (0xFF - alpha) <==> d == 0
  {
  }

  /** The colour __guac_common_surface_put gives a destination pixel. */
  function PutColor(ignoreAlpha: bool, src: Color, dst: Color): Color {
    if ignoreAlpha then Opaqued(src) else ArgbBlend(dst, src)
  }

  /** The colour __guac_common_surface_fill_mask gives a destination pixel. */
  function MaskColor(mask: Color, color: Color, dst: Color): Color {
    if mask & OPAQUE_BLACK != 0 then color else dst
  }

  /** The colour of a fill through a mask, which is always opaque. */
  function OpaqueColor(red: bv8, green: bv8, blue: bv8): Color {
    OPAQUE_BLACK | ((red as Color) << 16) | ((green as Color) << 8) | (blue as Color)
  }

  /** A premultiplied colour with every component scaled by factor / 255. */
  function Faded(c: Color, factor: Color): Color {
    var a, r := ((c >> 24) & 0xFF) * factor / 0xFF, ((c >> 16) & 0xFF) * factor / 0xFF;
    var g, b := ((c >> 8) & 0xFF) * factor / 0xFF, (c & 0xFF) * factor / 0xFF;
    (a << 24) | (r << 16) | (g << 8) | b
  }

  /** How much of what lies below a colour shines through it. */
  function Through(c: Color): Color { 0xFF - (c >> 24) }

  function Summed(a: Color, b: Color): Color { a + b }

  /** The client's composite operator OVER on premultiplied colours: an opaque
      colour covers what was there, a transparent one leaves it. */
  function Over(src: Color, dst: Color): Color {
    if FullAlpha(src) || dst == 0 then src
    else if src == 0 then dst
    else Summed(src, Faded(dst, Through(src)))
  }

  lemma AddingChanges(a: Color, b: Color)
    ensures Summed(a, b) == a <==> b == 0
  {
  }

  /** The operator gives the source colour exactly where that is opaque, or nothing of
      the destination shines through. */
  lemma OverGivesSource(src: Color, dst: Color)
    ensures Over(src, dst) == src <==>
            FullAlpha(src) || dst == 0 || (src != 0 && Faded(dst, Through(src)) == 0)
  {
    hide Faded, Through, FullAlpha, Summed;
    TransparentIsNotOpaque();
    AddingChanges(src, Faded(dst, Through(src)));
  }

  /** An image handed in by the caller (a Cairo surface); read only. */
  datatype Image = Image(width: nat, height: nat, at: (int, int) -> Color)

  /** The colour a pixel is given by an image drawn at (x, y). */
  function DrawnColor(ignoreAlpha: bool, image: Image, x: int, y: int, px: int, py: int, dst: Color): Color {
    PutColor(ignoreAlpha, image.at(px - x, py - y), dst)
  }

  /** The colour a pixel is given by a fill through a mask at (x, y). */
  function PaintedColor(mask: Image, color: Color, x: int, y: int, px: int, py: int, dst: Color): Color {
    MaskColor(mask.at(px - x, py - y), color, dst)
  }

  lemma BlendedAlpha(a: Color)
    requires a != 0 && a <= 0xFF
    ensures BlendComponent(0xFF, a, a) == 0xFF
  {
  }

  /** Blending onto an opaque pixel gives an opaque pixel. */
  lemma BlendStaysOpaque(dst: Color, src: Color)
    requires FullAlpha(dst)
    ensures FullAlpha(ArgbBlend(dst, src))
  {
    hide FullAlpha, BlendComponent, ArgbBlend, Alpha, Part;
    AlphaByte(dst);
    AlphaByte(src);
    AlphaByte(ArgbBlend(dst, src));
    AlphaIsPart(src);
    AlphaIsPart(dst);
    AlphaIsPart(ArgbBlend(dst, src));
    BlendedAtEnds(dst, src);
    if Part(src, A) != 0 && Part(src, A) != 0xFF && Part(dst, A) != 0 {
      BlendedPart(dst, src, A);
      BlendedAlpha(Alpha(src));
    }
  }

  lemma DrawnStaysOpaque(ignoreAlpha: bool, image: Image, x: int, y: int, px: int, py: int, dst: Color)
    requires FullAlpha(dst)
    ensures FullAlpha(DrawnColor(ignoreAlpha, image, x, y, px, py, dst))
  {
    hide FullAlpha, ArgbBlend;
    var src := image.at(px - x, py - y);
    OpaquedIsOpaque(src);
    BlendStaysOpaque(dst, src);
  }

  /** A fill reaches the pixels where its mask is not wholly transparent. */
  lemma MaskSelects(mask: Color, color: Color, dst: Color)
    ensures MaskColor(mask, color, dst) == if Alpha(mask) != 0 then color else dst
  {
  }

  lemma RedOfColor(red: bv8, green: bv8, blue: bv8)
    ensures Part(OpaqueColor(red, green, blue), R) == red as Color
  {
  }

  lemma GreenOfColor(red: bv8, green: bv8, blue: bv8)
    ensures Part(OpaqueColor(red, green, blue), G) == green as Color
  {
  }

  lemma BlueOfColor(red: bv8, green: bv8, blue: bv8)
    ensures Part(OpaqueColor(red, green, blue), B) == blue as Color
  {
  }

  lemma OpaqueColorIsOpaque(red: bv8, green: bv8, blue: bv8)
    ensures FullAlpha(OpaqueColor(red, green, blue))
  {
  }

  /** The colour of a fill is opaque and has the components given. */
  lemma ColorOfFill(red: bv8, green: bv8, blue: bv8)
    ensures var c := OpaqueColor(red, green, blue);
            && Alpha(c) == 0xFF
            && Part(c, R) == red as Color && Part(c, G) == green as Color && Part(c, B) == blue as Color
  {
    hide OpaqueColor, Part, Alpha, FullAlpha;
    OpaqueColorIsOpaque(red, green, blue);
    AlphaByte(OpaqueColor(red, green, blue));
    RedOfColor(red, green, blue);
    GreenOfColor(red, green, blue);
    BlueOfColor(red, green, blue);
  }
}
