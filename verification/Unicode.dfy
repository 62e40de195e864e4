/** Bytes and UTF-8 characters as src/libguac/unicode.c sees them, where only the first
    byte of a character decides how many bytes it takes; and as sections 3 and 4 of RFC
    3629 define them. */
module Unicode {

  type Byte = b: int | 0 <= b < 256

  /** A byte of a C string. */
  type Octet = b: Byte | 0 < b witness 1

  /** guac_utf8_charsize. Unexpected bytes count as one-byte characters. */
  function CharSize(c: Byte): (size: nat)
    ensures 1 <= size <= 4
  {
    if c < 0x80 then 1
    else if 0xC0 <= c < 0xE0 then 2
    else if 0xE0 <= c < 0xF0 then 3
    else if 0xF0 <= c < 0xF8 then 4
    else 1
  }

  /** The masks the size is read from select these ranges. */
  lemma MasksSelectRanges(c: bv8)
    ensures (c | 0x7F) == 0x7F <==> c < 0x80
    ensures (c | 0x1F) == 0xDF <==> 0xC0 <= c < 0xE0
    ensures (c | 0x0F) == 0xEF <==> 0xE0 <= c < 0xF0
    ensures (c | 0x07) == 0xF7 <==> 0xF0 <= c < 0xF8
  {
  }

  /** The same size, read from the bits as the program does. */
  lemma SizeByMasks(c: bv8)
    ensures CharSize(c as int) ==
            if (c | 0x7F) == 0x7F then 1
            else if (c | 0x1F) == 0xDF then 2
            else if (c | 0x0F) == 0xEF then 3
            else if (c | 0x07) == 0xF7 then 4
            else 1
  {
    MasksSelectRanges(c);
  }

  /** The number of characters in a byte string; a character cut off by the end
      counts as one. */
  function CharCount(s: seq<Byte>): nat {
    if s == [] then 0
    else if CharSize(s[0]) >= |s| then 1
    else 1 + CharCount(s[CharSize(s[0])..])
  }

  /** The byte string ends where a character ends. */
  predicate EndsOnBoundary(s: seq<Byte>) {
    if s == [] then true
    else CharSize(s[0]) <= |s| && EndsOnBoundary(s[CharSize(s[0])..])
  }

  // ------------------------------------------------------------ well-formed text

  /** A Unicode scalar value: a code point that is not a surrogate. */
  type Scalar = c: int | 0 <= c < 0xD800 || 0xE000 <= c < 0x11_0000

  predicate IsContinuation(b: Byte) { 0x80 <= b <= 0xBF }

  /** The six bits a continuation byte carries. */
  function Payload(b: Byte): int
    requires IsContinuation(b)
  {
    b - 0x80
  }

  datatype Front = Malformed | Front(scalar: Scalar, size: nat)

  /** The character at the front of a byte string: a lead byte, which gives the number of
      continuation bytes that follow, in the shortest form. */
  function FrontOf(s: seq<Byte>): (r: Front)
    ensures r.Front? ==> 1 <= r.size <= |s|
  {
    if |s| >= 1 && s[0] <= 0x7F then Front(s[0], 1)
    else if |s| >= 2 && 0xC0 <= s[0] <= 0xDF && IsContinuation(s[1]) then
      var c := (s[0] - 0xC0) * 0x40 + Payload(s[1]);
      if c < 0x80 then Malformed else Front(c, 2)
    else if |s| >= 3 && 0xE0 <= s[0] <= 0xEF && IsContinuation(s[1]) && IsContinuation(s[2]) then
      var c := (s[0] - 0xE0) * 0x1000 + Payload(s[1]) * 0x40 + Payload(s[2]);
      if c < 0x800 || 0xD800 <= c <= 0xDFFF then Malformed else Front(c, 3)
    else if |s| >= 4 && 0xF0 <= s[0] <= 0xF7 && IsContinuation(s[1]) && IsContinuation(s[2]) && IsContinuation(s[3]) then
      var c := (s[0] - 0xF0) * 0x4_0000 + Payload(s[1]) * 0x1000 + Payload(s[2]) * 0x40 + Payload(s[3]);
      if c < 0x1_0000 || c > 0x10_FFFF then Malformed else Front(c, 4)
    else Malformed
  }

  predicate WellFormed(s: seq<Byte>) {
    s == [] || (FrontOf(s).Front? && WellFormed(s[FrontOf(s).size..]))
  }

  /** The characters of well-formed text. */
  function Characters(s: seq<Byte>): (r: seq<Scalar>)
    requires WellFormed(s)
  {
    if s == [] then [] else [FrontOf(s).scalar] + Characters(s[FrontOf(s).size..])
  }

  /** The bytes that begin a character. */
  function LeadBytes(s: seq<Byte>): nat {
    if s == [] then 0 else (if IsContinuation(s[0]) then 0 else 1) + LeadBytes(s[1..])
  }

  lemma {:induction false} LeadBytesSplit(a: seq<Byte>, b: seq<Byte>)
    ensures LeadBytes(a + b) == LeadBytes(a) + LeadBytes(b)
  {
    if a == [] {
      assert a + b == b;
    } else {
      LeadBytesSplit(a[1..], b);
      assert (a + b)[1..] == a[1..] + b;
    }
  }

  lemma {:induction false} NoLeadBytes(s: seq<Byte>)
    requires forall k :: 0 <= k < |s| ==> IsContinuation(s[k])
    ensures LeadBytes(s) == 0
  {
    if s != [] {
      NoLeadBytes(s[1..]);
    }
  }

  lemma FrontOfJoin(a: seq<Byte>, b: seq<Byte>)
    requires FrontOf(a).Front?
    ensures FrontOf(a + b) == FrontOf(a)
  {
    var s := a + b;
    assert s[0] == a[0] && (|a| >= 2 ==> s[1] == a[1]) && (|a| >= 3 ==> s[2] == a[2]) && (|a| >= 4 ==> s[3] == a[3]);
  }

  lemma {:induction false} WellFormedJoin(a: seq<Byte>, b: seq<Byte>)
    requires WellFormed(a) && WellFormed(b)
    ensures WellFormed(a + b) && Characters(a + b) == Characters(a) + Characters(b)
    decreases |a|
  {
    hide FrontOf;
    if a == [] {
      assert a + b == b;
    } else {
      var n := FrontOf(a).size;
      FrontOfJoin(a, b);
      assert (a + b)[n..] == a[n..] + b;
      WellFormedJoin(a[n..], b);
    }
  }

  /** Characters from the examples of section 7 of RFC 3629. */
  lemma GreekAlpha()
    ensures WellFormed([0xCE, 0x91]) && Characters([0xCE, 0x91]) == [0x391]
  {
  }

  /** The byte order mark, and the ideograph "stump of tree". */
  lemma StumpOfTree()
    ensures var s: seq<Byte> := [0xEF, 0xBB, 0xBF, 0xF0, 0xA3, 0x8E, 0xB4];
            WellFormed(s) && Characters(s) == [0xFEFF, 0x233B4]
  {
  }

  /** A well-formed character is one character to the program as well, and has one lead
      byte. */
  lemma FrontIsOneCharacter(s: seq<Byte>)
    requires FrontOf(s).Front?
    ensures s[0] <= 0x7F || s[0] > 0xBF
    ensures CharSize(s[0]) == FrontOf(s).size
    ensures LeadBytes(s) == 1 + LeadBytes(s[FrontOf(s).size..])
  {
    var n := FrontOf(s).size;
    var rest := s[1..n];
    assert s == [s[0]] + rest + s[n..];
    NoLeadBytes(rest);
    LeadBytesSplit([s[0]] + rest, s[n..]);
    LeadBytesSplit([s[0]], rest);
    assert LeadBytes([s[0]]) == 1;
  }

  /** Well-formed text ends where a character ends, and the program counts exactly its
      characters, which are as many as it has bytes other than continuation bytes. */
  lemma {:induction false} WellFormedIsCounted(s: seq<Byte>)
    requires WellFormed(s)
    ensures EndsOnBoundary(s)
    ensures CharCount(s) == |Characters(s)| == LeadBytes(s)
    decreases |s|
  {
    if s != [] {
      FrontIsOneCharacter(s);
      WellFormedIsCounted(s[FrontOf(s).size..]);
    }
  }

  // ---------------------------------------------------------------- counting

  /** The characters from a position on, which may lie behind the end. */
  function CountFrom(s: seq<Byte>, i: nat): nat {
    if i >= |s| then 0 else CharCount(s[i..])
  }

  lemma CountSteps(s: seq<Byte>, i: nat)
    requires i < |s|
    ensures CountFrom(s, i) == 1 + CountFrom(s, i + CharSize(s[i]))
  {
    var size := CharSize(s[i]);
    if i + size < |s| {
      assert s[i..][size..] == s[i + size..];
    }
  }

  lemma CountAll(s: seq<Byte>)
    ensures CountFrom(s, 0) == CharCount(s) && CountFrom(s, |s|) == 0
  {
    assert s[0..] == s;
  }

  /** guac_utf8_strlen, counting down the bytes of the current character. */
  method Strlen(s: seq<Byte>) returns (length: nat)
    ensures length == CharCount(s)
    ensures WellFormed(s) ==> length == LeadBytes(s) == |Characters(s)|
  {
    hide CharCount, CharSize, WellFormed, LeadBytes, Characters;
    if WellFormed(s) {
      WellFormedIsCounted(s);
    }
    CountAll(s);
    length := 0;
    var skip := 0;
    var i := 0;
    while i < |s|
      invariant 0 <= i <= |s| && 0 <= skip
      invariant length + CountFrom(s, i + skip) == CharCount(s)
    {
      if skip > 0 {
        skip := skip - 1;
      } else {
        CountSteps(s, i);
        skip := CharSize(s[i]) - 1;
        length := length + 1;
      }
      i := i + 1;
    }
  }
}
