/** Base64 (section 4 of RFC 4648) as written by src/libguac/socket.c and
    decoded in place by src/libguac/protocol.c. */
module Base64 {
  import opened Basics
  import opened Unicode

  const PAD: Byte := 61

  type Sextet = v: int | 0 <= v < 64

  /** __guac_socket_BASE64_CHARACTERS. */
  function Char(v: Sextet): Byte {
    if v < 26 then 65 + v
    else if v < 52 then 97 + (v - 26)
    else if v < 62 then 48 + (v - 52)
    else if v == 62 then 43
    else 47
  }

  /** __guac_base64_value; characters outside the alphabet count as zero. */
  function Value(c: Byte): Sextet {
    if 65 <= c <= 90 then c - 65
    else if 97 <= c <= 122 then c - 97 + 26
    else if 48 <= c <= 57 then c - 48 + 52
    else if c == 43 then 62
    else if c == 47 then 63
    else 0
  }

  /** The alphabet of table 1 in section 4 of RFC 4648, sixteen characters to a row. */
  function Row(k: nat): (r: string)
    requires k < 4
    ensures |r| == 16
  {
    if k == 0 then "ABCDEFGHIJKLMNOP"
    else if k == 1 then "QRSTUVWXYZabcdef"
    else if k == 2 then "ghijklmnopqrstuv"
    else "wxyz0123456789+/"
  }

  lemma FirstRow(v: nat)
    requires v < 16
    ensures Char(v) == Row(0)[v] as int
  {
  }

  lemma SecondRow(v: nat)
    requires v < 16
    ensures Char(16 + v) == Row(1)[v] as int
  {
  }

  lemma ThirdRow(v: nat)
    requires v < 16
    ensures Char(32 + v) == Row(2)[v] as int
  {
  }

  lemma FourthRow(v: nat)
    requires v < 16
    ensures Char(48 + v) == Row(3)[v] as int
  {
  }

  /** The characters and the padding are those of the standard. */
  lemma CharIsFromTable(v: Sextet)
    ensures Char(v) == Row(v / 16)[v % 16] as int && PAD == '=' as int
  {
    hide Char, Row;
    var k := v % 16;
    if v < 16 {
      FirstRow(k);
    } else if v < 32 {
      SecondRow(k);
    } else if v < 48 {
      ThirdRow(k);
    } else {
      FourthRow(k);
    }
  }

  /** Only the characters of the alphabet have a value; all others count as zero. */
  lemma OnlyAlphabetCounts(c: Byte)
    ensures Value(c) == 0 || Char(Value(c)) == c
  {
  }

  lemma ValueOfChar(v: Sextet)
    ensures Value(Char(v)) == v && Char(v) != PAD && Char(v) != 0 && Char(v) < 0x80
  {
  }

  function Chars(v: seq<Sextet>): (r: seq<Byte>)
    ensures |r| == |v|
  {
    if v == [] then [] else [Char(v[0])] + Chars(v[1..])
  }

  /** The six-bit values of at most three bytes. */
  function Sextets(d: seq<Byte>): seq<Sextet>
    requires 1 <= |d| <= 3
  {
    if |d| == 1 then [d[0] / 4, d[0] % 4 * 16]
    else if |d| == 2 then [d[0] / 4, d[0] % 4 * 16 + d[1] / 16, d[1] % 16 * 4]
    else [d[0] / 4, d[0] % 4 * 16 + d[1] / 16, d[1] % 16 * 4 + d[2] / 64, d[2] % 64]
  }

  /** The encoding of at most three bytes, padded to four characters. */
  function Group(d: seq<Byte>): (r: seq<Byte>)
    requires 1 <= |d| <= 3
    ensures |r| == 4
  {
    Chars(Sextets(d)) + if |d| == 1 then [PAD, PAD] else if |d| == 2 then [PAD] else []
  }

  lemma GroupUnfolds(d: seq<Byte>)
    requires 1 <= |d| <= 3
    ensures Group(d) ==
            if |d| == 1 then [Char(d[0] / 4), Char(d[0] % 4 * 16), PAD, PAD]
            else if |d| == 2 then [Char(d[0] / 4), Char(d[0] % 4 * 16 + d[1] / 16), Char(d[1] % 16 * 4), PAD]
            else [Char(d[0] / 4), Char(d[0] % 4 * 16 + d[1] / 16), Char(d[1] % 16 * 4 + d[2] / 64), Char(d[2] % 64)]
  {
    hide Char;
    var v := Sextets(d);
    assert Chars(v) == [Char(v[0])] + Chars(v[1..]);
    assert Chars(v[1..]) == [Char(v[1])] + Chars(v[1..][1..]);
    if |v| >= 3 {
      assert Chars(v[1..][1..]) == [Char(v[2])] + Chars(v[1..][1..][1..]);
    }
  }

  function Encode(d: seq<Byte>): (r: seq<Byte>)
    ensures |r| == (|d| + 2) / 3 * 4
  {
    if d == [] then []
    else if |d| <= 3 then Group(d)
    else Group(d[..3]) + Encode(d[3..])
  }

  lemma EncodeNothing()
    ensures Encode([]) == []
  {
  }

  lemma EncodeGroup(d: seq<Byte>)
    requires 1 <= |d| <= 3
    ensures Encode(d) == Group(d)
  {
  }

  lemma {:induction false} EncodeWhole(a: seq<Byte>, b: seq<Byte>)
    requires |a| % 3 == 0
    ensures Encode(a + b) == Encode(a) + Encode(b)
  {
    hide Group;
    if a == [] {
      assert a + b == b;
    } else {
      EncodeWhole(a[3..], b);
      assert (a + b)[..3] == a[..3] && (a + b)[3..] == a[3..] + b;
      if |a| == 3 {
        assert a[..3] == a && a[3..] == [];
      }
      if b == [] {
        assert a + b == a;
      }
    }
  }

  /** No character of an encoding is NUL or part of a longer UTF-8 character. */
  predicate Plain(s: seq<Byte>) {
    forall i :: 0 <= i < |s| ==> 0 < s[i] < 0x80
  }

  lemma {:induction false} CharsArePlain(v: seq<Sextet>)
    ensures Plain(Chars(v))
  {
    if v != [] {
      ValueOfChar(v[0]);
      CharsArePlain(v[1..]);
    }
  }

  lemma {:induction false} EncodeIsPlain(d: seq<Byte>)
    ensures Plain(Encode(d))
  {
    hide Chars, Sextets;
    if d != [] {
      CharsArePlain(Sextets(if |d| <= 3 then d else d[..3]));
      if |d| > 3 {
        EncodeIsPlain(d[3..]);
      }
    }
  }

  // ---------------------------------------------------------------- decoding

  /** The bytes two neighbouring six-bit values complete, by position in a group. */
  function First(a: Sextet, b: Sextet): Byte { a * 4 + b / 16 }
  function Second(b: Sextet, c: Sextet): Byte { b % 16 * 16 + c / 4 }
  function Third(c: Sextet, d: Sextet): Byte { c % 4 * 64 + d }

  /** The bytes a sequence of six-bit values stands for; bits that do not fill a
      byte are dropped. */
  function Bytes(v: seq<Sextet>): (r: seq<Byte>)
    ensures |r| <= |v|
  {
    if |v| < 2 then []
    else if |v| == 2 then [First(v[0], v[1])]
    else if |v| == 3 then [First(v[0], v[1]), Second(v[1], v[2])]
    else [First(v[0], v[1]), Second(v[1], v[2]), Third(v[2], v[3])] + Bytes(v[4..])
  }

  /** Position within a group of four. */
  function Phase(n: nat): (p: nat)
    ensures p < 4
  {
    n % 4
  }

  lemma PhaseNext(n: nat)
    ensures Phase(n + 1) == if Phase(n) == 3 then 0 else Phase(n) + 1
    ensures Phase(n + 4) == Phase(n)
    ensures n < 4 ==> Phase(n) == n
  {
  }

  /** The byte completed by one more value, if any, given the value before it. */
  function Completed(phase: nat, last: Sextet, x: Sextet): seq<Byte> {
    if phase == 0 then []
    else if phase == 1 then [First(last, x)]
    else if phase == 2 then [Second(last, x)]
    else [Third(last, x)]
  }

  lemma {:induction false} BytesSnoc(v: seq<Sextet>, x: Sextet)
    ensures Bytes(v + [x]) == Bytes(v) + Completed(Phase(|v|), if v == [] then 0 else v[|v| - 1], x)
  {
    hide First, Second, Third, Phase;
    var w := v + [x];
    PhaseNext(|v|);
    if |v| >= 4 {
      var head := [First(v[0], v[1]), Second(v[1], v[2]), Third(v[2], v[3])];
      BytesSnoc(v[4..], x);
      PhaseNext(|v| - 4);
      PhaseNext(0);
      assert w[4..] == v[4..] + [x];
      assert Bytes(w) == head + Bytes(w[4..]) && Bytes(v) == head + Bytes(v[4..]);
    } else if |v| == 3 {
      assert w[4..] == [] && Bytes(w) == [First(v[0], v[1]), Second(v[1], v[2]), Third(v[2], x)];
    } else if |v| == 2 {
      assert Bytes(w) == [First(v[0], v[1]), Second(v[1], x)];
    }
  }

  /** The characters that are decoded: up to the first padding or NUL. */
  function Digits(s: seq<Byte>): seq<Sextet> {
    if s == [] || s[0] == PAD || s[0] == 0 then [] else [Value(s[0])] + Digits(s[1..])
  }

  function Decode(s: seq<Byte>): seq<Byte> { Bytes(Digits(s)) }

  lemma DigitsCons(c: Byte, rest: seq<Byte>)
    requires c != PAD && c != 0
    ensures Digits([c] + rest) == [Value(c)] + Digits(rest)
  {
    assert ([c] + rest)[1..] == rest;
  }

  lemma {:induction false} DigitsOfChars(v: seq<Sextet>, rest: seq<Byte>)
    ensures Digits(Chars(v) + rest) == v + Digits(rest)
  {
    hide Char, Value, Digits;
    if v == [] {
      assert Chars(v) + rest == rest;
    } else {
      ValueOfChar(v[0]);
      calc {
        Digits(Chars(v) + rest);
        { assert Chars(v) + rest == [Char(v[0])] + (Chars(v[1..]) + rest); }
        Digits([Char(v[0])] + (Chars(v[1..]) + rest));
        { DigitsCons(Char(v[0]), Chars(v[1..]) + rest); }
        [v[0]] + Digits(Chars(v[1..]) + rest);
        { DigitsOfChars(v[1..], rest); }
        [v[0]] + (v[1..] + Digits(rest));
        v + Digits(rest);
      }
    }
  }

  /** Cutting two bytes at the six-bit boundaries between them loses nothing. */
  lemma FirstBack(a: Byte, low: nat)
    requires low < 16
    ensures First(a / 4, a % 4 * 16 + low) == a
  {
  }

  lemma SecondBack(b: Byte, high: nat, low: nat)
    requires high < 4 && low < 4
    ensures Second(high * 16 + b / 16, b % 16 * 4 + low) == b
  {
    assert (high * 16 + b / 16) % 16 == b / 16;
    assert (b % 16 * 4 + low) / 4 == b % 16;
  }

  lemma ThirdBack(c: Byte, high: nat)
    requires high < 16
    ensures Third(high * 4 + c / 64, c % 64) == c
  {
  }

  lemma SextetsBack(d: seq<Byte>)
    requires 1 <= |d| <= 3
    ensures Bytes(Sextets(d)) == d
  {
    hide First, Second, Third;
    FirstBack(d[0], if |d| == 1 then 0 else d[1] / 16);
    if |d| >= 2 {
      SecondBack(d[1], d[0] % 4, if |d| == 2 then 0 else d[2] / 64);
    }
    if |d| == 3 {
      ThirdBack(d[2], d[1] % 16);
    }
  }

  lemma BytesGroup(v: seq<Sextet>, w: seq<Sextet>)
    requires |v| == 4
    ensures Bytes(v + w) == Bytes(v) + Bytes(w)
  {
    hide First, Second, Third;
    assert (v + w)[4..] == w && v[4..] == [];
  }

  lemma SextetsSize(d: seq<Byte>)
    requires |d| == 3
    ensures |Sextets(d)| == 4
  {
  }

  lemma NothingDecodes()
    ensures Decode([]) == []
  {
  }

  lemma PadDecodes(pad: seq<Byte>)
    requires pad != [] && pad[0] == PAD
    ensures Digits(pad) == []
  {
  }

  lemma {:induction false} DecodeOfEncode(d: seq<Byte>)
    ensures Decode(Encode(d)) == d
  {
    hide First, Second, Third, Char, Value, Sextets, Bytes, Digits, Chars;
    if d == [] {
      assert Decode([]) == [] by { NothingDecodes(); }
    } else if |d| < 3 {
      var v, pad := Sextets(d), if |d| == 1 then [PAD, PAD] else [PAD];
      DigitsOfChars(v, pad);
      PadDecodes(pad);
      SextetsBack(d);
      assert v + [] == v;
    } else {
      var head, rest := d[..3], d[3..];
      var v := Sextets(head);
      SextetsSize(head);
      assert d == head + rest;
      assert Encode(d) == Chars(v) + Encode(rest) by {
        assert Group(head) == Chars(v) + [];
        if |d| == 3 { assert d == head; }
      }
      DecodeOfEncode(rest);
      DigitsOfChars(v, Encode(rest));
      BytesGroup(v, Digits(Encode(rest)));
      SextetsBack(head);
    }
  }

  const TWO_32 := 0x1_0000_0000

  /** The 32-bit accumulator after shifting in six more bits. */
  function Accumulate(value: int, x: Sextet): int { (value * 64 + x) % TWO_32 }

  lemma AccumulateSplits(value: int, last: Sextet, x: Sextet) returns (q: int)
    requires 0 <= value < TWO_32 && value % 64 == last
    ensures 0 <= q && Accumulate(value, x) == 4096 * q + (last * 64 + x) < TWO_32
  {
    var p := value / 64;
    assert value == 64 * p + last;
    q := p % 0x10_0000;
    assert p == 0x10_0000 * (p / 0x10_0000) + q;
    assert value * 64 + x == TWO_32 * (p / 0x10_0000) + (4096 * q + (last * 64 + x));
  }

  lemma MultipleGrows(d: int, z: int)
    requires d > 0
    ensures z >= 1 ==> d * z >= d
    ensures z <= -1 ==> d * z <= -d
  {
  }

  lemma QuotientOf(n: int, d: int, q: int, r: int)
    requires d > 0 && 0 <= r < d && n == d * q + r
    ensures n / d == q && n % d == r
  {
    assert d * (n / d) + n % d == n;
    assert d * (n / d - q) == r - n % d;
    MultipleGrows(d, n / d - q);
  }

  lemma DropLow(n: int, d: int, k: int, m: int, b: int, low: int)
    requires d > 0 && m > 0 && 0 <= low < d && 0 <= b < m && n == d * (m * k + b) + low
    ensures n / d % m == b
  {
    QuotientOf(n, d, m * k + b, low);
    QuotientOf(m * k + b, m, k, b);
  }

  lemma SplitBytes(q: int, last: Sextet, x: Sextet)
    ensures (4096 * q + (last * 64 + x)) / 16 % 256 == First(last, x)
    ensures (4096 * q + (last * 64 + x)) / 4 % 256 == Second(last, x)
    ensures (4096 * q + (last * 64 + x)) % 256 == Third(last, x)
    ensures (4096 * q + (last * 64 + x)) % 64 == x
  {
    var n := 4096 * q + (last * 64 + x);
    DropLow(n, 16, q, 256, First(last, x), x % 16);
    DropLow(n, 4, 4 * q + last / 16, 256, Second(last, x), x % 4);
    QuotientOf(n, 256, 16 * q + last / 4, Third(last, x));
    QuotientOf(n, 64, 64 * q + last, x);
  }

  /** Of the accumulator only the last two values ever reach the output. */
  lemma LatestByte(value: int, last: Sextet, x: Sextet)
    requires 0 <= value < TWO_32 && value % 64 == last
    ensures 0 <= Accumulate(value, x) < TWO_32 && Accumulate(value, x) % 64 == x
    ensures Accumulate(value, x) / 16 % 256 == First(last, x)
    ensures Accumulate(value, x) / 4 % 256 == Second(last, x)
    ensures Accumulate(value, x) % 256 == Third(last, x)
  {
    hide *;
    var q := AccumulateSplits(value, last, x);
    SplitBytes(q, last, x);
  }

  /** What the decoder keeps after the values `v`: the bytes they complete at the
      front of the text, the number of bits not yet written, and an accumulator
      ending in the last value. */
  ghost predicate Decoded(buf: array<Byte>, start: nat, v: seq<Sextet>, length: nat, bits: nat, value: int)
    reads buf
  {
    && length <= |v| && start + |v| <= buf.Length && buf[start..start + length] == Bytes(v)
    && bits == (var p := Phase(|v|); if p == 0 then 0 else 8 - 2 * p)
    && 0 <= value < TWO_32 && value % 64 == if v == [] then 0 else v[|v| - 1]
  }

  /** Two buffers differ at most where output has been written. */
  predicate SameOutside(was: seq<Byte>, now: seq<Byte>, start: nat, length: nat) {
    |was| == |now| && forall k :: 0 <= k < |was| && !(start <= k < start + length) ==> now[k] == was[k]
  }

  lemma SameTwice(a: seq<Byte>, b: seq<Byte>, c: seq<Byte>, start: nat, length: nat, more: nat)
    requires SameOutside(a, b, start, length) && SameOutside(b, c, start, more) && length <= more
    ensures SameOutside(a, c, start, more)
  {
  }

  lemma SameThere(was: seq<Byte>, now: seq<Byte>, start: nat, length: nat, k: nat)
    requires SameOutside(was, now, start, length) && start + length <= k < |was|
    ensures |now| == |was| && now[k] == was[k]
  {
  }

  lemma SameAlready(was: seq<Byte>, start: nat)
    ensures SameOutside(was, was, start, 0)
  {
  }

  lemma PowersUsed()
    ensures Pow2(0) == 1 && Pow2(2) == 4 && Pow2(4) == 16
  {
    assert Pow2(3) == 8 && Pow2(1) == 2;
  }

  /** Shift in one more value and write out the byte it completes, if any. */
  method DecodeValue(buf: array<Byte>, start: nat, x: Sextet, length: nat, bits: nat, value: int, ghost v: seq<Sextet>)
    returns (length': nat, bits': nat, value': int)
    requires Decoded(buf, start, v, length, bits, value) && start + |v| < buf.Length
    modifies buf
    ensures Decoded(buf, start, v + [x], length', bits', value') && length <= length'
    ensures SameOutside(old(buf[..]), buf[..], start, length')
  {
    hide Bytes, First, Second, Third, Accumulate, Phase;
    ghost var last := if v == [] then 0 else v[|v| - 1];
    LatestByte(value, last, x);
    BytesSnoc(v, x);
    PhaseNext(|v|);
    length', bits', value' := length, bits + 6, Accumulate(value, x);
    if bits' >= 8 {
      PowersUsed();
      buf[start + length'] := value' / Pow2(bits' % 8) % 256;
      assert buf[start..start + length' + 1] == buf[start..start + length'] + [buf[start + length']];
      bits' := bits' - 8;
      length' := length' + 1;
    }
  }

  lemma DigitsStop(s: seq<Byte>)
    requires s != [] && (s[0] == PAD || s[0] == 0)
    ensures Digits(s) == []
  {
  }

  lemma TailSplits(text: seq<Byte>, i: nat)
    requires i < |text|
    ensures text[i..] == [text[i]] + text[i + 1..]
  {
  }

  lemma Regroup(v: seq<Sextet>, x: Sextet, w: seq<Sextet>)
    ensures v + ([x] + w) == (v + [x]) + w
  {
  }

  /** The first values of a text have been read. */
  predicate HasRead(text: seq<Byte>, v: seq<Sextet>) {
    |v| <= |text| && Digits(text) == v + Digits(text[|v|..])
  }

  lemma HasReadNone(text: seq<Byte>)
    ensures HasRead(text, [])
  {
    assert text[0..] == text;
  }

  lemma DigitsAdvance(text: seq<Byte>, v: seq<Sextet>)
    requires HasRead(text, v) && |v| < |text|
    ensures var c := text[|v|]; if c == PAD || c == 0 then Digits(text) == v else HasRead(text, v + [Value(c)])
  {
    hide Value, Digits;
    var i := |v|;
    if text[i] == PAD || text[i] == 0 {
      DigitsStop(text[i..]);
    } else {
      TailSplits(text, i);
      DigitsCons(text[i], text[i + 1..]);
      Regroup(v, Value(text[i]), Digits(text[i + 1..]));
    }
  }

  lemma DecodedNothing(buf: array<Byte>, start: nat)
    requires start <= buf.Length
    ensures Decoded(buf, start, [], 0, 0, 0)
  {
    PhaseNext(0);
    assert Bytes([]) == [];
  }

  lemma DecodedSize(buf: array<Byte>, start: nat, v: seq<Sextet>, length: nat, bits: nat, value: int)
    requires Decoded(buf, start, v, length, bits, value)
    ensures length <= |v| && start + |v| <= buf.Length && buf[start..start + length] == Bytes(v)
  {
  }

  /** guac_protocol_decode_base64, on the text that starts at the given offset.
      The output never overtakes the input, so no character is overwritten
      before it is read. */
  method DecodeInPlace(buf: array<Byte>, start: nat) returns (length: nat)
    requires start <= buf.Length && 0 in buf[start..]
    modifies buf
    ensures start + length <= buf.Length && buf[start..start + length] == Decode(old(buf[start..]))
    ensures length <= |Digits(old(buf[start..]))|
    ensures SameOutside(old(buf[..]), buf[..], start, length)
  {
    hide SameOutside, Decoded, HasRead, Bytes, Digits, Value;
    length := 0;
    var bits: nat, value, i := 0, 0, 0;
    ghost var was, text := buf[..], buf[start..];
    SameAlready(was, start);
    ghost var v: seq<Sextet> := [];
    ghost var nul :| 0 <= nul < |text| && text[nul] == 0;
    HasReadNone(text);
    DecodedNothing(buf, start);
    while true
      invariant i == |v| && Decoded(buf, start, v, length, bits, value)
      invariant i <= nul && HasRead(text, v)
      invariant SameOutside(was, buf[..], start, length)
      decreases buf.Length - i
    {
      DecodedSize(buf, start, v, length, bits, value);
      ghost var before := buf[..];
      SameThere(was, before, start, length, start + i);
      var current := buf[start + i];
      i := i + 1;
      DigitsAdvance(text, v);
      if current == 0 || current == PAD {
        break;
      }
      ghost var earlier := length;
      length, bits, value := DecodeValue(buf, start, Value(current), length, bits, value, v);
      SameTwice(was, before, buf[..], start, earlier, length);
      v := v + [Value(current)];
    }
  }

  lemma {:induction false} NulEndsText(s: seq<Byte>, t: seq<Byte>)
    ensures Digits(s + [0] + t) == Digits(s) && |Digits(s)| <= |s|
  {
    if s != [] {
      NulEndsText(s[1..], t);
      assert (s + [0] + t)[1..] == s[1..] + [0] + t;
    }
  }
}
