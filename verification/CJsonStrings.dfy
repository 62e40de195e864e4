/** What the text of a JSON string stands for (section 7 of RFC 8259), and that the parser
    of src/guacenc/cJSON.c reads it so. */
module CJsonStrings {
  import opened Unicode
  import opened CJson
  import opened CJsonParser

  /** One character of a string as it is written: itself in UTF-8; a backslash and a
      letter; or one or two \u escapes, each with four hexadecimal digits whose letters
      are of either case. */
  datatype Piece = Plain(bytes: seq<Octet>) | Short(letter: Octet) | Escaped(scalar: Scalar, upper: seq<bool>)

  /** The letters after a backslash, and what they stand for. */
  const LETTERS: string := "\"\\/bfnrt"
  const CONTROLS: seq<Octet> := [0x22, 0x5C, 0x2F, 0x8, 0xC, 0xA, 0xD, 0x9]

  predicate IsLetter(c: Octet) { exists k :: 0 <= k < |LETTERS| && LETTERS[k] as int == c }

  predicate Proper(p: Piece) {
    match p
    case Plain(bytes) => FrontOf(bytes).Front? && FrontOf(bytes).size == |bytes| && bytes[0] !in [QUOTE, BACKSLASH]
    case Short(letter) => IsLetter(letter)
    case Escaped(scalar, upper) => scalar != 0 && |upper| == 8
  }

  /** The code point a piece stands for. */
  function Meaning(p: Piece): Scalar
    requires Proper(p)
  {
    match p
    case Plain(bytes) => FrontOf(bytes).scalar
    case Short(letter) =>
      var k :| 0 <= k < |LETTERS| && LETTERS[k] as int == letter;
      CONTROLS[k]
    case Escaped(scalar, _) => scalar
  }

  function HexChar(v: int, upper: bool): Octet
    requires 0 <= v < 16
  {
    if v < 10 then '0' as int + v else (if upper then 'A' as int else 'a' as int) + v - 10
  }

  function Escape4(n: nat, upper: seq<bool>): (r: seq<Octet>)
    requires n < 0x1_0000 && |upper| == 4
    ensures |r| == 6
  {
    [BACKSLASH, SMALL_U, HexChar(n / 0x1000, upper[0]), HexChar(n / 0x100 % 16, upper[1]),
     HexChar(n / 0x10 % 16, upper[2]), HexChar(n % 16, upper[3])]
  }

  function Text(p: Piece): seq<Octet>
    requires Proper(p)
  {
    match p
    case Plain(bytes) => bytes
    case Short(letter) => [BACKSLASH, letter]
    case Escaped(c, upper) =>
      if c < 0x1_0000 then Escape4(c, upper[..4])
      else Escape4(0xD800 + (c - 0x1_0000) / 0x400, upper[..4]) + Escape4(0xDC00 + (c - 0x1_0000) % 0x400, upper[4..])
  }

  predicate AllProper(pieces: seq<Piece>) { forall k :: 0 <= k < |pieces| ==> Proper(pieces[k]) }

  function Texts(pieces: seq<Piece>): seq<Octet>
    requires AllProper(pieces)
  {
    if pieces == [] then [] else Text(pieces[0]) + Texts(pieces[1..])
  }

  function Meanings(pieces: seq<Piece>): seq<Scalar>
    requires AllProper(pieces)
  {
    if pieces == [] then [] else [Meaning(pieces[0])] + Meanings(pieces[1..])
  }

  // ------------------------------------------------------------------ the digits

  lemma HexBack(v: int, upper: bool)
    requires 0 <= v < 16
    ensures HexValue(HexChar(v, upper)) == v && HexChar(v, upper) !in [QUOTE, BACKSLASH]
  {
  }

  lemma FourDigits(n: nat)
    requires n < 0x1_0000
    ensures ((n / 0x1000 * 16 + n / 0x100 % 16) * 16 + n / 0x10 % 16) * 16 + n % 16 == n
    ensures n / 0x1000 < 16
  {
    assert n / 0x100 == n / 0x1000 * 16 + n / 0x100 % 16;
    assert n / 0x10 == n / 0x100 * 16 + n / 0x10 % 16;
  }

  /** The digits of an escape are read back. */
  lemma EscapeBack(n: nat, upper: seq<bool>, tail: seq<Octet>)
    requires n < 0x1_0000 && |upper| == 4
    ensures var t := Escape4(n, upper) + tail;
            && t[0] == BACKSLASH && t[1] == SMALL_U && Hex4(t[2..]) == n && t[6..] == tail
            && forall k :: 2 <= k < 6 ==> t[k] !in [QUOTE, BACKSLASH]
  {
    hide HexChar, HexValue;
    HexBack(n / 0x1000, upper[0]);
    HexBack(n / 0x100 % 16, upper[1]);
    HexBack(n / 0x10 % 16, upper[2]);
    HexBack(n % 16, upper[3]);
    FourDigits(n);
  }

  /** The six-bit groups of a code point. */
  lemma SixBits(c: nat)
    ensures c == c / 64 * 64 + c % 64 && c / 64 == c / 4096 * 64 + c / 64 % 64
    ensures c / 4096 == c / 262144 * 64 + c / 4096 % 64
  {
  }

  lemma OneByte(c: Scalar)
    requires 0 < c < 0x80
    ensures FrontOf(Utf8(c)) == Front(c, 1)
  {
  }

  lemma TwoBytes(c: Scalar)
    requires 0x80 <= c < 0x800
    ensures FrontOf(Utf8(c)) == Front(c, 2)
  {
    SixBits(c);
  }

  lemma ThreeBytes(c: Scalar)
    requires 0x800 <= c < 0x1_0000
    ensures FrontOf(Utf8(c)) == Front(c, 3)
  {
    SixBits(c);
    var b := Utf8(c);
    assert (b[0] - 0xE0) * 0x1000 + Payload(b[1]) * 0x40 + Payload(b[2]) == c;
  }

  lemma FourBytes(c: Scalar)
    requires 0x1_0000 <= c
    ensures FrontOf(Utf8(c)) == Front(c, 4)
  {
    SixBits(c);
    var b := Utf8(c);
    assert (b[0] - 0xF0) * 0x4_0000 + Payload(b[1]) * 0x1000 + Payload(b[2]) * 0x40 + Payload(b[3]) == c;
  }

  /** The bytes written for a code point are that character, read by the definition of
      UTF-8. */
  lemma Utf8IsCharacter(c: Scalar)
    requires c != 0
    ensures FrontOf(Utf8(c)) == Front(c, |Utf8(c)|)
  {
    hide FrontOf;
    if c < 0x80 {
      OneByte(c);
    } else if c < 0x800 {
      TwoBytes(c);
    } else if c < 0x1_0000 {
      ThreeBytes(c);
    } else {
      FourBytes(c);
    }
  }

  // ------------------------------------------------------------------ one piece

  /** The piece at the front of a text is read as these bytes, and is complete. */
  predicate Reads(text: seq<Octet>, bytes: seq<Octet>, tail: seq<Octet>) {
    && Body(text + tail) == Prepend(bytes, Body(tail))
    && (EscapesOf(tail).Complete? ==> EscapesOf(text + tail).Complete?)
  }

  lemma ReadByte(c: Octet, tail: seq<Octet>)
    requires c !in [QUOTE, BACKSLASH]
    ensures Reads([c], [c], tail)
  {
    var t := [c] + tail;
    assert t[1..] == tail && t[0] == c;
  }

  lemma PrependTwice<T>(xs: seq<T>, ys: seq<T>, r: Result<seq<T>>)
    ensures Prepend(xs, Prepend(ys, r)) == Prepend(xs + ys, r)
  {
    if r.Ok? {
      assert xs + (ys + r.value) == xs + ys + r.value;
    }
  }

  lemma {:induction false} ReadPlain(bytes: seq<Octet>, tail: seq<Octet>)
    requires forall k :: 0 <= k < |bytes| ==> bytes[k] !in [QUOTE, BACKSLASH]
    ensures Reads(bytes, bytes, tail)
  {
    hide Body, EscapesOf;
    if bytes == [] {
      assert bytes + tail == tail;
      if Body(tail).Ok? {
        assert [] + Body(tail).value == Body(tail).value;
      }
    } else {
      ReadPlain(bytes[1..], tail);
      ReadByte(bytes[0], bytes[1..] + tail);
      PrependTwice([bytes[0]], bytes[1..], Body(tail));
      assert bytes == [bytes[0]] + bytes[1..];
      assert bytes + tail == [bytes[0]] + (bytes[1..] + tail);
    }
  }

  lemma ReadShort(letter: Octet, tail: seq<Octet>)
    requires letter != SMALL_U
    ensures Reads([BACKSLASH, letter], [Unescape(letter)], tail)
  {
    hide Unescape;
    var t := [BACKSLASH, letter] + tail;
    assert t[2..] == tail && t[0] == BACKSLASH && t[1] == letter;
  }

  lemma LettersStandFor(letter: Octet, k: nat)
    requires k < |LETTERS| && LETTERS[k] as int == letter
    ensures Unescape(letter) == CONTROLS[k] && letter != SMALL_U
  {
  }

  lemma NoCrossing(t: seq<Octet>)
    requires |t| >= 6 && t[0] == BACKSLASH && t[1] == SMALL_U && forall k :: 2 <= k < 6 ==> t[k] !in [QUOTE, BACKSLASH]
    ensures EscapesOf(t) == EscapesOf(t[6..])
  {
  }

  lemma ReadUnit(t: seq<Octet>)
    requires |t| >= 6 && t[0] == BACKSLASH && t[1] == SMALL_U && UnicodeEscape(t).size <= |t|
    ensures Body(t) == Prepend(UnicodeEscape(t).bytes, Body(t[UnicodeEscape(t).size..]))
  {
    hide UnicodeEscape;
  }

  lemma ReadOne(c: Scalar, upper: seq<bool>, tail: seq<Octet>)
    requires 0 < c < 0x1_0000 && |upper| == 4
    ensures Reads(Escape4(c, upper), Utf8(c), tail)
  {
    hide Escape4, Utf8, Body, EscapesOf, Hex4;
    var t := Escape4(c, upper) + tail;
    EscapeBack(c, upper, tail);
    assert UnicodeEscape(t) == Unit(Utf8(c), 6);
    ReadUnit(t);
    NoCrossing(t);
  }

  /** An escape for zero, for a second surrogate, or for a first one with no escape behind
      it, names no character; it is dropped. */
  lemma StrayIsDropped(n: nat, upper: seq<bool>, tail: seq<Octet>)
    requires n < 0x1_0000 && |upper| == 4
    requires n == 0 || 0xDC00 <= n <= 0xDFFF || (0xD800 <= n <= 0xDBFF && !([BACKSLASH, SMALL_U] <= tail))
    ensures Reads(Escape4(n, upper), [], tail)
  {
    hide Escape4, Utf8, Body, EscapesOf, Hex4;
    var t := Escape4(n, upper) + tail;
    EscapeBack(n, upper, tail);
    if |t| >= 8 && t[6] == BACKSLASH && t[7] == SMALL_U {
      assert tail[0] == BACKSLASH && tail[1] == SMALL_U;
    }
    assert UnicodeEscape(t) == Unit([], 6);
    ReadUnit(t);
    NoCrossing(t);
  }

  /** The two surrogates of a code point. */
  lemma Surrogates(c: Scalar)
    requires c >= 0x1_0000
    ensures var high, low := 0xD800 + (c - 0x1_0000) / 0x400, 0xDC00 + (c - 0x1_0000) % 0x400;
            && 0xD800 <= high <= 0xDBFF && 0xDC00 <= low <= 0xDFFF
            && 0x1_0000 + high % 0x400 * 0x400 + low % 0x400 == c
  {
    var d := c - 0x1_0000;
    assert d == d / 0x400 * 0x400 + d % 0x400;
    assert (0xD800 + d / 0x400) % 0x400 == d / 0x400;
    assert (0xDC00 + d % 0x400) % 0x400 == d % 0x400;
  }

  lemma PairIsRead(t: seq<Octet>, high: nat, low: nat)
    requires |t| >= 12 && t[6] == BACKSLASH && t[7] == SMALL_U && Hex4(t[2..]) == high && Hex4(t[8..]) == low
    requires 0xD800 <= high <= 0xDBFF && 0xDC00 <= low <= 0xDFFF
    ensures UnicodeEscape(t) == Unit(Utf8(0x1_0000 + high % 0x400 * 0x400 + low % 0x400), 12)
  {
    hide Hex4, Utf8;
  }

  lemma ReadPair(c: Scalar, upper: seq<bool>, tail: seq<Octet>)
    requires c >= 0x1_0000 && |upper| == 8
    ensures Reads(Text(Escaped(c, upper)), Utf8(c), tail)
  {
    hide Escape4, Utf8, Body, EscapesOf, Hex4;
    var high, low := 0xD800 + (c - 0x1_0000) / 0x400, 0xDC00 + (c - 0x1_0000) % 0x400;
    Surrogates(c);
    var first, second := Escape4(high, upper[..4]), Escape4(low, upper[4..]);
    var t := Text(Escaped(c, upper)) + tail;
    assert t == first + (second + tail);
    EscapeBack(high, upper[..4], second + tail);
    EscapeBack(low, upper[4..], tail);
    assert t[8..] == t[6..][2..] && t[12..] == t[6..][6..];
    PairIsRead(t, high, low);
    ReadUnit(t);
    NoCrossing(t);
    NoCrossing(t[6..]);
  }

  /** What the parser makes of a piece. */
  function Bytes(p: Piece): (r: seq<Octet>)
    requires Proper(p)
  {
    match p
    case Plain(bytes) => bytes
    case Short(letter) => [Unescape(letter)]
    case Escaped(c, _) => Utf8(c)
  }

  lemma PlainIsPlain(bytes: seq<Octet>)
    requires Proper(Plain(bytes))
    ensures forall k :: 0 <= k < |bytes| ==> bytes[k] !in [QUOTE, BACKSLASH]
  {
  }

  lemma PieceReads(p: Piece, tail: seq<Octet>)
    requires Proper(p)
    ensures Reads(Text(p), Bytes(p), tail)
  {
    hide Reads, FrontOf, Unescape, Utf8, Escape4;
    match p
    case Plain(bytes) =>
      PlainIsPlain(bytes);
      ReadPlain(bytes, tail);
    case Short(letter) =>
      var k :| 0 <= k < |LETTERS| && LETTERS[k] as int == letter;
      LettersStandFor(letter, k);
      ReadShort(letter, tail);
    case Escaped(c, upper) =>
      if c < 0x1_0000 {
        ReadOne(c, upper[..4], tail);
      } else {
        ReadPair(c, upper, tail);
      }
  }

  /** The bytes are the character meant. */
  lemma PieceMeans(p: Piece)
    requires Proper(p)
    ensures FrontOf(Bytes(p)) == Front(Meaning(p), |Bytes(p)|)
  {
    hide Utf8, Unescape;
    match p
    case Plain(_) =>
    case Short(letter) =>
      var k :| 0 <= k < |LETTERS| && LETTERS[k] as int == letter;
      LettersStandFor(letter, k);
    case Escaped(c, _) => Utf8IsCharacter(c);
  }

  // ------------------------------------------------------------------ the string

  function AllBytes(pieces: seq<Piece>): seq<Octet>
    requires AllProper(pieces)
  {
    if pieces == [] then [] else Bytes(pieces[0]) + AllBytes(pieces[1..])
  }

  lemma {:induction false} PiecesRead(pieces: seq<Piece>, tail: seq<Octet>)
    requires AllProper(pieces)
    ensures Reads(Texts(pieces), AllBytes(pieces), tail)
  {
    hide Body, EscapesOf, Proper, Text, Bytes;
    if pieces == [] {
      ReadPlain([], tail);
    } else {
      var text, rest := Text(pieces[0]), Texts(pieces[1..]);
      PiecesRead(pieces[1..], tail);
      PieceReads(pieces[0], rest + tail);
      PrependTwice(Bytes(pieces[0]), AllBytes(pieces[1..]), Body(tail));
      assert text + rest + tail == text + (rest + tail);
    }
  }

  lemma OneCharacter(b: seq<Byte>)
    requires FrontOf(b).Front? && FrontOf(b).size == |b|
    ensures WellFormed(b) && Characters(b) == [FrontOf(b).scalar]
  {
    hide FrontOf;
    assert b[|b|..] == [];
  }

  lemma {:induction false} PiecesMean(pieces: seq<Piece>)
    requires AllProper(pieces)
    ensures WellFormed(AllBytes(pieces)) && Characters(AllBytes(pieces)) == Meanings(pieces)
  {
    if pieces != [] {
      hide FrontOf, Bytes, Proper, Meaning, WellFormed, Characters;
      PiecesMean(pieces[1..]);
      PieceMeans(pieces[0]);
      OneCharacter(Bytes(pieces[0]));
      WellFormedJoin(Bytes(pieces[0]), AllBytes(pieces[1..]));
    }
  }

  lemma ClosedBody(rest: seq<Octet>)
    ensures Body([QUOTE] + rest) == Ok([], rest) && EscapesOf([QUOTE] + rest).Complete?
  {
    assert ([QUOTE] + rest)[1..] == rest;
  }

  /** A string as it is written, with its quotes. */
  function Quoted(pieces: seq<Piece>): seq<Octet>
    requires AllProper(pieces)
  {
    [QUOTE] + Texts(pieces) + [QUOTE]
  }

  lemma QuotedReads(pieces: seq<Piece>, rest: seq<Octet>)
    requires AllProper(pieces)
    ensures ReadString(Quoted(pieces) + rest) == Ok(AllBytes(pieces), rest)
  {
    hide Body, Reserve, EscapesOf, AllProper, Texts, AllBytes;
    var body := Texts(pieces) + ([QUOTE] + rest);
    var t := Quoted(pieces) + rest;
    assert t == [QUOTE] + body && t[1..] == body && t[0] == QUOTE;
    PiecesRead(pieces, [QUOTE] + rest);
    ClosedBody(rest);
    CompleteIsDefined(t);
    assert AllBytes(pieces) + [] == AllBytes(pieces);
  }

  /** A string written in any of these ways is read as well-formed UTF-8 for exactly the
      code points it stands for, and what follows its closing quote is left over. */
  lemma StringMeans(pieces: seq<Piece>, rest: seq<Octet>)
    requires AllProper(pieces)
    ensures var r := ReadString(Quoted(pieces) + rest);
            r.Ok? && r.rest == rest && WellFormed(r.value) && Characters(r.value) == Meanings(pieces)
  {
    hide AllProper, Quoted, AllBytes, WellFormed, Characters, Meanings;
    QuotedReads(pieces, rest);
    PiecesMean(pieces);
  }
}
