/** Printing and parsing JSON (src/guacenc/cJSON.c). Text is what a C string
    holds before its terminator. */
module CJson {
  import opened Basics
  import opened Unicode

  datatype JSON =
    | Null
    | False
    | True
    | Number(value: real)
    | String(text: seq<Octet>)
    | Array(items: seq<JSON>)
    | Object(members: seq<Member>)

  datatype Member = Member(name: seq<Octet>, value: JSON)

  /** What a parsing function makes of a text. Undefined stands for a read past
      the terminator or a write past the end of a buffer. */
  datatype Result<T> = Ok(value: T, rest: seq<Octet>) | Bad | Undefined

  const TAB: Octet := 9
  const NEWLINE: Octet := 10
  const SPACE: Octet := 32
  const QUOTE: Octet := 34
  const PLUS: Octet := 43
  const COMMA: Octet := 44
  const MINUS: Octet := 45
  const DOT: Octet := 46
  const COLON: Octet := 58
  const OPEN_BRACKET: Octet := 91
  const BACKSLASH: Octet := 92
  const CLOSE_BRACKET: Octet := 93
  const SMALL_U: Octet := 117
  const OPEN_BRACE: Octet := 123
  const CLOSE_BRACE: Octet := 125

  const NULL_WORD: seq<Octet> := [110, 117, 108, 108]
  const FALSE_WORD: seq<Octet> := [102, 97, 108, 115, 101]
  const TRUE_WORD: seq<Octet> := [116, 114, 117, 101]

  const INT_MIN: int := -0x8000_0000
  const INT_MAX: int := 0x7FFF_FFFF
  // ----------------------------------------------------------------- the text

  /** The integer numbers that print as such. */
  predicate IntRange(value: real) {
    value == value.Floor as real && INT_MIN <= value.Floor <= INT_MAX
  }

  /** Trees whose numbers are all integers in the range of int. */
  predicate Printable(v: JSON) {
    match v
    case Number(value) => IntRange(value)
    case Array(items) => forall i :: 0 <= i < |items| ==> Printable(items[i])
    case Object(members) => forall i :: 0 <= i < |members| ==> Printable(members[i].value)
    case _ => true
  }

  function NumberText(n: int): seq<Octet> {
    if n < 0 then [MINUS] + Decimal(-n) else Decimal(n)
  }

  function HexDigit(x: nat): Octet
    requires x < 16
  {
    if x < 10 then ZERO + x else 97 + x - 10
  }

  /** A string byte as it is written between quotes. */
  function Escape(c: Octet): seq<Octet> {
    if c > 31 && c != QUOTE && c != BACKSLASH then [c]
    else if c == BACKSLASH || c == QUOTE then [BACKSLASH, c]
    else if c == 8 then [BACKSLASH, 98]
    else if c == 12 then [BACKSLASH, 102]
    else if c == NEWLINE then [BACKSLASH, 110]
    else if c == 13 then [BACKSLASH, 114]
    else if c == TAB then [BACKSLASH, 116]
    else [BACKSLASH, SMALL_U, ZERO, ZERO, HexDigit(c / 16), HexDigit(c % 16)]
  }

  function Escaped(s: seq<Octet>): seq<Octet> {
    if s == [] then [] else Escape(s[0]) + Escaped(s[1..])
  }

  function StringText(s: seq<Octet>): seq<Octet> { [QUOTE] + Escaped(s) + [QUOTE] }

  function Tabs(n: int): seq<Octet> {
    if n <= 0 then [] else [TAB] + Tabs(n - 1)
  }

  /** What stands between two items of an array. */
  function Separator(fmt: bool): seq<Octet> { if fmt then [COMMA, SPACE] else [COMMA] }

  function Joined(texts: seq<seq<Octet>>, fmt: bool): seq<Octet> {
    if texts == [] then []
    else if |texts| == 1 then texts[0]
    else texts[0] + Separator(fmt) + Joined(texts[1..], fmt)
  }

  /** What separates a member from the next one, or ends the object. */
  function AfterMember(last: bool, fmt: bool): seq<Octet> {
    (if last then [] else [COMMA]) + (if fmt then [NEWLINE] else [])
  }

  function NameText(name: seq<Octet>, depth: int, fmt: bool): seq<Octet> {
    (if fmt then Tabs(depth) else []) + name + (if fmt then [COLON, TAB] else [COLON])
  }

  /** The text of one member of an object, at the depth of its members. */
  function MemberText(name: seq<Octet>, value: seq<Octet>, last: bool, depth: int, fmt: bool): seq<Octet> {
    NameText(name, depth, fmt) + value + AfterMember(last, fmt)
  }

  datatype Pair = Pair(name: seq<Octet>, value: seq<Octet>)

  function Listed(pairs: seq<Pair>, depth: int, fmt: bool): seq<Octet> {
    if pairs == [] then []
    else MemberText(pairs[0].name, pairs[0].value, |pairs| == 1, depth, fmt) + Listed(pairs[1..], depth, fmt)
  }

  function ItemTexts(v: JSON, depth: int, fmt: bool): (r: seq<seq<Octet>>)
    requires v.Array? && Printable(v)
    ensures |r| == |v.items|
    decreases v, 0
  {
    seq(|v.items|, i requires 0 <= i < |v.items| => ValueText(v.items[i], depth + 1, fmt))
  }

  function MemberTexts(v: JSON, depth: int, fmt: bool): (r: seq<Pair>)
    requires v.Object? && Printable(v)
    ensures |r| == |v.members|
    decreases v, 0
  {
    seq(|v.members|, i requires 0 <= i < |v.members| =>
      Pair(StringText(v.members[i].name), ValueText(v.members[i].value, depth + 1, fmt)))
  }

  /** The text of a value at a nesting depth, with or without formatting. */
  function ValueText(v: JSON, depth: int, fmt: bool): seq<Octet>
    requires Printable(v)
    decreases v, 1
  {
    match v
    case Null => NULL_WORD
    case False => FALSE_WORD
    case True => TRUE_WORD
    case Number(value) => NumberText(value.Floor)
    case String(text) => StringText(text)
    case Array(items) => [OPEN_BRACKET] + Joined(ItemTexts(v, depth, fmt), fmt) + [CLOSE_BRACKET]
    case Object(members) =>
      if members == [] then [OPEN_BRACE] + (if fmt then [NEWLINE] + Tabs(depth - 1) else []) + [CLOSE_BRACE]
      else
        [OPEN_BRACE] + (if fmt then [NEWLINE] else []) + Listed(MemberTexts(v, depth, fmt), depth + 1, fmt) +
        (if fmt then Tabs(depth) else []) + [CLOSE_BRACE]
  }

  // ------------------------------------------------------------------ reading

  /** The byte a pointer to this text points to. */
  function Peek(t: seq<Octet>): Byte { if t == [] then 0 else t[0] }

  /** skip: the text after leading white space. */
  function AfterSpace(t: seq<Octet>): (r: seq<Octet>)
    ensures |r| <= |t|
  {
    if t != [] && t[0] <= SPACE then AfterSpace(t[1..]) else t
  }

  predicate IsDigit(c: Byte) { ZERO <= c <= NINE }

  datatype Run = Run(value: nat, rest: seq<Octet>)

  /** A run of digits, continuing the number `n`. */
  function Digits(t: seq<Octet>, n: nat): (r: Run)
    ensures |r.rest| <= |t|
  {
    if IsDigit(Peek(t)) then Digits(t[1..], 10 * n + (t[0] - ZERO)) else Run(n, t)
  }

  function PowerOfTen(e: int): real
    decreases if e < 0 then -e else e
  {
    if e == 0 then 1.0 else if e > 0 then 10.0 * PowerOfTen(e - 1) else PowerOfTen(e + 1) / 10.0
  }

  function Scaled(negative: bool, n: nat, e: int): real {
    (if negative then -1.0 else 1.0) * (n as real) * PowerOfTen(e)
  }

  predicate HasFraction(t: seq<Octet>) { |t| > 1 && t[0] == DOT && IsDigit(t[1]) }

  predicate HasExponent(t: seq<Octet>) { Peek(t) == 101 || Peek(t) == 69 }

  /** The digits before the decimal point. A leading zero is passed over. */
  function Whole(t: seq<Octet>): (r: Run)
    ensures |r.rest| <= |t| && (IsDigit(Peek(t)) ==> |r.rest| < |t|)
  {
    var t := if Peek(t) == ZERO then t[1..] else t;
    if IsDigit(Peek(t)) && t[0] != ZERO then Digits(t[1..], t[0] - ZERO) else Run(0, t)
  }

  function ReadNumber(t: seq<Octet>): (r: Result<JSON>)
    ensures r.Ok? && r.value.Number? && |r.rest| <= |t|
    ensures Peek(t) == MINUS || IsDigit(Peek(t)) ==> |r.rest| < |t|
  {
    var whole := Whole(if Peek(t) == MINUS then t[1..] else t);
    var fraction := if HasFraction(whole.rest) then Digits(whole.rest[1..], whole.value) else whole;
    var scale := if HasFraction(whole.rest) then |fraction.rest| - (|whole.rest| - 1) else 0;
    if HasExponent(fraction.rest) then
      var u := fraction.rest[1..];
      var negative := Peek(u) == MINUS;
      var exponent := Digits(if Peek(u) == PLUS || negative then u[1..] else u, 0);
      var subscale: int := if negative then 0 - exponent.value else exponent.value;
      Ok(Number(Scaled(Peek(t) == MINUS, fraction.value, scale + subscale)), exponent.rest)
    else
      Ok(Number(Scaled(Peek(t) == MINUS, fraction.value, scale)), fraction.rest)
  }

  function HexValue(c: Octet): int {
    if ZERO <= c <= NINE then c - ZERO
    else if 65 <= c <= 70 then 10 + c - 65
    else if 97 <= c <= 102 then 10 + c - 97
    else -1
  }

  /** parse_hex4: zero unless there are four hexadecimal digits. */
  function Hex4(t: seq<Octet>): (r: nat)
    ensures r < 0x10000
  {
    if |t| >= 4 && HexValue(t[0]) >= 0 && HexValue(t[1]) >= 0 && HexValue(t[2]) >= 0 && HexValue(t[3]) >= 0 then
      ((HexValue(t[0]) * 16 + HexValue(t[1])) * 16 + HexValue(t[2])) * 16 + HexValue(t[3])
    else 0
  }

  /** The UTF-8 form of a code point. */
  function Utf8(uc: nat): (r: seq<Octet>)
    requires 0 < uc < 0x110000
    ensures 1 <= |r| <= 4 && (uc < 0x10000 ==> |r| <= 3)
  {
    if uc < 0x80 then [uc]
    else if uc < 0x800 then [0xC0 + uc / 64, 0x80 + uc % 64]
    else if uc < 0x10000 then [0xE0 + uc / 4096, 0x80 + uc / 64 % 64, 0x80 + uc % 64]
    else [0xF0 + uc / 262144, 0x80 + uc / 4096 % 64, 0x80 + uc / 64 % 64, 0x80 + uc % 64]
  }

  /** A \u escape with its backslash at the front of the text: what it stands
      for and how much text it takes. */
  datatype Unit = Unit(bytes: seq<Octet>, size: nat)

  function UnicodeEscape(t: seq<Octet>): (r: Unit)
    requires |t| >= 2
    ensures r.size == 6 || r.size == 12
    ensures |r.bytes| <= 4 && (r.size == 6 ==> |r.bytes| <= 3)
  {
    var uc := Hex4(t[2..]);
    if 0xDC00 <= uc <= 0xDFFF || uc == 0 then Unit([], 6)
    else if 0xD800 <= uc <= 0xDBFF then
      if |t| < 8 || t[6] != BACKSLASH || t[7] != SMALL_U then Unit([], 6)
      else
        var uc2 := Hex4(t[8..]);
        if uc2 < 0xDC00 || uc2 > 0xDFFF then Unit([], 12)
        else Unit(Utf8(0x10000 + uc % 0x400 * 0x400 + uc2 % 0x400), 12)
    else Unit(Utf8(uc), 6)
  }

  function Unescape(c: Octet): Octet {
    if c == 98 then 8
    else if c == 102 then 12
    else if c == 110 then NEWLINE
    else if c == 114 then 13
    else if c == 116 then TAB
    else c
  }

  /** The next byte or escape of a string, when there is one. */
  function NextUnit(t: seq<Octet>): (r: Unit)
    requires t != [] && (t[0] == BACKSLASH ==> |t| >= 2)
    ensures r.size > 0
  {
    if t[0] != BACKSLASH then Unit([t[0]], 1)
    else if t[1] == SMALL_U then UnicodeEscape(t)
    else Unit([Unescape(t[1])], 2)
  }

  function Prepend<T>(xs: seq<T>, r: Result<seq<T>>): Result<seq<T>> {
    if r.Ok? then Ok(xs + r.value, r.rest) else r
  }

  /** The second pass of parse_string: the bytes a string stands for, up to its
      closing quote or the end of the text. */
  function Body(t: seq<Octet>): (r: Result<seq<Octet>>)
    ensures r.Ok? ==> |r.rest| <= |t|
    decreases |t|
  {
    if t == [] then Ok([], [])
    else if t[0] == QUOTE then Ok([], t[1..])
    else if t == [BACKSLASH] then Undefined
    else
      var u := NextUnit(t);
      if u.size > |t| then Undefined
      else Prepend(u.bytes, Body(t[u.size..]))
  }

  /** The first pass of parse_string: how many bytes to reserve. */
  function Reserve(t: seq<Octet>): (r: Result<nat>)
    ensures r.Ok? ==> |r.rest| <= |t|
  {
    if t == [] || t[0] == QUOTE then Ok(0, t)
    else if t == [BACKSLASH] then Undefined
    else
      var r := Reserve(if t[0] == BACKSLASH then t[2..] else t[1..]);
      if r.Ok? then Ok(r.value + 1, r.rest) else r
  }

  function ReadString(t: seq<Octet>): (r: Result<seq<Octet>>)
    ensures r.Ok? ==> |r.rest| < |t|
  {
    if Peek(t) != QUOTE then Bad
    else
      var reserved, body := Reserve(t[1..]), Body(t[1..]);
      if reserved.Ok? && body.Ok? && |body.value| <= reserved.value then body else Undefined
  }

  function MapOk<T, U>(r: Result<T>, f: T -> U): (m: Result<U>)
    ensures m.Ok? ==> r.Ok? && m.rest == r.rest
  {
    match r
    case Ok(value, rest) => Ok(f(value), rest)
    case Bad => Bad
    case Undefined => Undefined
  }

  function ReadValue(t: seq<Octet>): (r: Result<JSON>)
    ensures r.Ok? ==> |r.rest| < |t|
    decreases |t|, 0
  {
    if NULL_WORD <= t then Ok(Null, t[4..])
    else if FALSE_WORD <= t then Ok(False, t[5..])
    else if TRUE_WORD <= t then Ok(True, t[4..])
    else if Peek(t) == QUOTE then MapOk(ReadString(t), s => String(s))
    else if Peek(t) == MINUS || IsDigit(Peek(t)) then ReadNumber(t)
    else if Peek(t) == OPEN_BRACKET then
      var u := AfterSpace(t[1..]);
      if Peek(u) == CLOSE_BRACKET then Ok(Array([]), u[1..]) else MapOk(ReadItems(u), items => Array(items))
    else if Peek(t) == OPEN_BRACE then
      var u := AfterSpace(t[1..]);
      if Peek(u) == CLOSE_BRACE then Ok(Object([]), u[1..]) else MapOk(ReadMembers(u), members => Object(members))
    else Bad
  }

  function ReadItems(t: seq<Octet>): (r: Result<seq<JSON>>)
    ensures r.Ok? ==> |r.rest| < |t|
    decreases |t|, 1
  {
    match ReadValue(AfterSpace(t))
    case Ok(value, rest) => Prepend([value], MoreItems(AfterSpace(rest)))
    case Bad => Bad
    case Undefined => Undefined
  }

  /** After an item: another one, or the end of the array. */
  function MoreItems(t: seq<Octet>): (r: Result<seq<JSON>>)
    ensures r.Ok? ==> |r.rest| < |t|
    decreases |t|, 2
  {
    if Peek(t) == COMMA then ReadItems(t[1..])
    else if Peek(t) == CLOSE_BRACKET then Ok([], t[1..])
    else Bad
  }

  function ReadMember(t: seq<Octet>): (r: Result<Member>)
    ensures r.Ok? ==> |r.rest| < |t|
    decreases |t|, 1
  {
    match ReadString(AfterSpace(t))
    case Ok(name, rest) =>
      var u := AfterSpace(rest);
      if Peek(u) != COLON then Bad
      else MapOk(ReadValue(AfterSpace(u[1..])), value => Member(name, value))
    case Bad => Bad
    case Undefined => Undefined
  }

  function ReadMembers(t: seq<Octet>): (r: Result<seq<Member>>)
    ensures r.Ok? ==> |r.rest| < |t|
    decreases |t|, 2
  {
    match ReadMember(t)
    case Ok(member, rest) => Prepend([member], MoreMembers(AfterSpace(rest)))
    case Bad => Bad
    case Undefined => Undefined
  }

  function MoreMembers(t: seq<Octet>): (r: Result<seq<Member>>)
    ensures r.Ok? ==> |r.rest| < |t|
    decreases |t|, 3
  {
    if Peek(t) == COMMA then ReadMembers(t[1..])
    else if Peek(t) == CLOSE_BRACE then Ok([], t[1..])
    else Bad
  }

  // --------------------------------------------------- what was printed reads back

  /** Could the text continue a number in front of it? */
  predicate ContinuesNumber(t: seq<Octet>) { IsDigit(Peek(t)) || HasFraction(t) || HasExponent(t) }

  lemma {:induction false} DigitsOfDecimal(n: nat, t: seq<Octet>)
    ensures Digits(Decimal(n) + t, 0) == Digits(t, n)
  {
    if n >= 10 {
      var d: seq<Octet> := [ZERO + n % 10];
      assert Decimal(n) + t == Decimal(n / 10) + (d + t);
      DigitsOfDecimal(n / 10, d + t);
      assert (d + t)[1..] == t;
    } else {
      assert (Decimal(n) + t)[1..] == t;
    }
  }

  lemma {:induction false} DecimalLead(n: nat)
    requires n > 0
    ensures Decimal(n)[0] != ZERO
  {
    if n >= 10 {
      DecimalLead(n / 10);
    }
  }

  lemma DigitsStep(t: seq<Octet>)
    requires IsDigit(Peek(t))
    ensures Digits(t, 0) == Digits(t[1..], t[0] - ZERO)
  {
  }

  lemma NoMoreDigits(t: seq<Octet>, n: nat)
    requires !IsDigit(Peek(t))
    ensures Digits(t, n) == Run(n, t)
  {
  }

  lemma WholeOfDecimal(n: nat, rest: seq<Octet>)
    requires !IsDigit(Peek(rest))
    ensures Whole(Decimal(n) + rest) == Run(n, rest)
  {
    hide Decimal, Digits;
    var t: seq<Octet> := Decimal(n) + rest;
    if n == 0 {
      ZeroText();
      assert t[1..] == rest;
    } else {
      DecimalLead(n);
      DigitsStep(t);
      DigitsOfDecimal(n, rest);
      NoMoreDigits(rest, n);
    }
  }

  /** An integer is read back exactly, unless what follows continues it. */
  lemma NumberReadsBack(m: int, rest: seq<Octet>)
    requires !ContinuesNumber(rest)
    ensures ReadNumber(NumberText(m) + rest) == Ok(Number(m as real), rest)
  {
    hide Digits, Whole, Decimal, HasFraction;
    var n: nat := if m < 0 then -m else m;
    WholeOfDecimal(n, rest);
    var t: seq<Octet> := NumberText(m) + rest;
    if m < 0 {
      assert t[1..] == Decimal(n) + rest;
    }
    assert PowerOfTen(0) == 1.0;
  }

  lemma UnitOfEscape(c: Octet, t: seq<Octet>)
    ensures NextUnit(Escape(c) + t) == Unit([c], |Escape(c)|)
  {
    if c <= 31 && c !in {8, 12, NEWLINE, 13, TAB} {
      var u: seq<Octet> := Escape(c) + t;
      var d := u[2..];
      assert d[0] == ZERO && d[1] == ZERO && d[2] == HexDigit(c / 16) && d[3] == HexDigit(c % 16);
      assert HexValue(d[2]) == c / 16 && HexValue(d[3]) == c % 16;
      assert Hex4(u[2..]) == c / 16 * 16 + c % 16;
    }
  }

  lemma {:induction false} BodyOfEscaped(s: seq<Octet>, rest: seq<Octet>)
    ensures Body(Escaped(s) + [QUOTE] + rest) == Ok(s, rest)
  {
    var t: seq<Octet> := Escaped(s) + [QUOTE] + rest;
    if s == [] {
      assert t[1..] == rest;
    } else {
      hide NextUnit, Unescape, UnicodeEscape;
      var tail: seq<Octet> := Escaped(s[1..]) + [QUOTE] + rest;
      assert t == Escape(s[0]) + tail;
      UnitOfEscape(s[0], tail);
      BodyOfEscaped(s[1..], rest);
      assert t[|Escape(s[0])|..] == tail;
      assert t[0] != QUOTE;
      assert s == [s[0]] + s[1..];
    }
  }

  lemma ReservePlain(c: Octet, t: seq<Octet>)
    requires c != QUOTE && c != BACKSLASH && Reserve(t).Ok?
    ensures var r := Reserve([c] + t); r.Ok? && r.value == Reserve(t).value + 1
  {
    assert ([c] + t)[1..] == t;
  }

  lemma ReservePair(c: Octet, t: seq<Octet>)
    requires Reserve(t).Ok?
    ensures var r := Reserve([BACKSLASH, c] + t); r.Ok? && r.value == Reserve(t).value + 1
  {
    assert ([BACKSLASH, c] + t)[2..] == t;
  }

  lemma ReserveHex(h: Octet, l: Octet, t: seq<Octet>)
    requires Reserve(t).Ok? && QUOTE !in [h, l] && BACKSLASH !in [h, l]
    ensures var r := Reserve([BACKSLASH, SMALL_U, ZERO, ZERO, h, l] + t); r.Ok? && r.value > Reserve(t).value
  {
    hide Reserve;
    ReservePlain(l, t);
    ReservePlain(h, [l] + t);
    ReservePlain(ZERO, [h] + ([l] + t));
    ReservePlain(ZERO, [ZERO] + ([h] + ([l] + t)));
    ReservePair(SMALL_U, [ZERO] + ([ZERO] + ([h] + ([l] + t))));
    assert [BACKSLASH, SMALL_U, ZERO, ZERO, h, l] + t ==
           [BACKSLASH, SMALL_U] + ([ZERO] + ([ZERO] + ([h] + ([l] + t))));
  }

  lemma ReserveEscape(c: Octet, t: seq<Octet>)
    requires Reserve(t).Ok?
    ensures var r := Reserve(Escape(c) + t); r.Ok? && r.value > Reserve(t).value
  {
    hide Reserve;
    if |Escape(c)| == 1 {
      ReservePlain(c, t);
    } else if |Escape(c)| == 2 {
      ReservePair(Escape(c)[1], t);
      assert Escape(c) == [BACKSLASH, Escape(c)[1]];
    } else {
      ReserveHex(HexDigit(c / 16), HexDigit(c % 16), t);
    }
  }

  lemma {:induction false} ReserveOfEscaped(s: seq<Octet>, rest: seq<Octet>)
    ensures var r := Reserve(Escaped(s) + [QUOTE] + rest); r.Ok? && r.value >= |s|
  {
    if s != [] {
      hide Escape, Reserve;
      var tail: seq<Octet> := Escaped(s[1..]) + [QUOTE] + rest;
      ReserveOfEscaped(s[1..], rest);
      ReserveEscape(s[0], tail);
      assert Escaped(s) + [QUOTE] + rest == Escape(s[0]) + tail;
    }
  }

  /** Every string is read back exactly, and fits the space reserved for it. */
  lemma StringReadsBack(s: seq<Octet>, rest: seq<Octet>)
    ensures ReadString(StringText(s) + rest) == Ok(s, rest)
  {
    hide Body, Reserve, Escaped;
    assert (StringText(s) + rest)[1..] == Escaped(s) + [QUOTE] + rest;
    BodyOfEscaped(s, rest);
    ReserveOfEscaped(s, rest);
  }

  lemma {:induction false} SkipsTabs(n: int, t: seq<Octet>)
    ensures AfterSpace(Tabs(n) + t) == AfterSpace(t)
    decreases n
  {
    if n > 0 {
      SkipsTabs(n - 1, t);
      assert (Tabs(n) + t)[1..] == Tabs(n - 1) + t;
    } else {
      assert Tabs(n) + t == t;
    }
  }

  lemma SkipsOne(c: Octet, t: seq<Octet>)
    requires c <= SPACE
    ensures AfterSpace([c] + t) == AfterSpace(t)
  {
    assert ([c] + t)[1..] == t;
  }

  /** No value starts with white space or a closing bracket. */
  lemma FirstByte(v: JSON, depth: int, fmt: bool)
    requires Printable(v)
    ensures var t := ValueText(v, depth, fmt); t != [] && t[0] > SPACE && t[0] != CLOSE_BRACKET && t[0] != CLOSE_BRACE
  {
  }

  lemma ItemTextAt(v: JSON, i: nat, depth: int, fmt: bool)
    requires v.Array? && Printable(v) && i < |v.items|
    ensures Printable(v.items[i]) && ItemTexts(v, depth, fmt)[i] == ValueText(v.items[i], depth + 1, fmt)
  {
  }

  /** Reading one item that is followed by a comma or a bracket. */
  lemma ItemStep(text: seq<Octet>, value: JSON, tail: seq<Octet>)
    requires text != [] && text[0] > SPACE && tail != [] && tail[0] > SPACE && ReadValue(text + tail) == Ok(value, tail)
    ensures ReadItems(text + tail) == Prepend([value], MoreItems(tail))
  {
    hide ReadValue;
    assert AfterSpace(text + tail) == text + tail;
  }

  /** After the comma, and the space if there is one, the next item is read. */
  lemma ItemsAfterComma(fmt: bool, t: seq<Octet>)
    ensures MoreItems(Separator(fmt) + t) == ReadItems(t)
  {
    hide ReadValue, AfterSpace;
    SkipsOne(SPACE, t);
    assert (Separator(fmt) + t)[1..] == if fmt then [SPACE] + t else t;
  }

  lemma ItemsEnd(rest: seq<Octet>)
    ensures MoreItems([CLOSE_BRACKET] + rest) == Ok([], rest)
  {
    assert ([CLOSE_BRACKET] + rest)[1..] == rest;
  }

  /** Items from the given one on, and the end of the array. */
  lemma {:induction false} ItemsReadBack(v: JSON, i: nat, depth: int, fmt: bool, rest: seq<Octet>)
    requires v.Array? && Printable(v) && i < |v.items|
    ensures ReadItems(Joined(ItemTexts(v, depth, fmt)[i..], fmt) + [CLOSE_BRACKET] + rest) == Ok(v.items[i..], rest)
    decreases v, 0, |v.items| - i
  {
    hide ValueText, ItemTexts, ReadValue, ReadItems, MoreItems, Printable;
    var texts := ItemTexts(v, depth, fmt);
    var close: seq<Octet> := [CLOSE_BRACKET] + rest;
    ItemTextAt(v, i, depth, fmt);
    FirstByte(v.items[i], depth + 1, fmt);
    var tail := close;
    if i + 1 < |v.items| {
      var next: seq<Octet> := Joined(texts[i + 1..], fmt) + [CLOSE_BRACKET] + rest;
      tail := Separator(fmt) + next;
      assert texts[i..][1..] == texts[i + 1..];
      ItemsReadBack(v, i + 1, depth, fmt, rest);
      ItemsAfterComma(fmt, next);
    } else {
      ItemsEnd(rest);
    }
    assert Joined(texts[i..], fmt) + [CLOSE_BRACKET] + rest == texts[i] + tail;
    ReadsBack(v.items[i], depth + 1, fmt, tail);
    ItemStep(texts[i], v.items[i], tail);
    assert v.items[i..] == [v.items[i]] + v.items[i + 1..];
  }

  lemma MemberTextAt(v: JSON, i: nat, depth: int, fmt: bool)
    requires v.Object? && Printable(v) && i < |v.members|
    ensures Printable(v.members[i].value)
    ensures MemberTexts(v, depth, fmt)[i] ==
            Pair(StringText(v.members[i].name), ValueText(v.members[i].value, depth + 1, fmt))
  {
  }

  lemma AfterName(fmt: bool, text: seq<Octet>, t: seq<Octet>)
    requires text != [] && text[0] > SPACE
    ensures AfterSpace((if fmt then [TAB] + text else text) + t) == text + t
  {
    if fmt {
      assert [TAB] + text + t == [TAB] + (text + t);
      SkipsOne(TAB, text + t);
    }
  }

  lemma NameAhead(name: seq<Octet>, t: seq<Octet>)
    ensures AfterSpace(StringText(name) + t) == StringText(name) + t
  {
  }

  lemma ColonAhead(t: seq<Octet>)
    requires t != [] && t[0] == COLON
    ensures AfterSpace(t) == t
  {
  }

  /** Reading one member, its name and value in the given text. */
  lemma MemberStep(member: Member, text: seq<Octet>, depth: int, fmt: bool, tail: seq<Octet>)
    requires text != [] && text[0] > SPACE && ReadValue(text + tail) == Ok(member.value, tail)
    ensures ReadMember(NameText(StringText(member.name), depth, fmt) + text + tail) == Ok(member, tail)
  {
    hide ReadValue, ReadString, StringText, AfterSpace;
    var name, indent := StringText(member.name), if fmt then Tabs(depth) else [];
    var colon: seq<Octet> := if fmt then [COLON, TAB] else [COLON];
    var u: seq<Octet> := colon + text + tail;
    assert indent + name + colon + text + tail == indent + (name + u);
    SkipsTabs(if fmt then depth else 0, name + u);
    NameAhead(member.name, u);
    StringReadsBack(member.name, u);
    ColonAhead(u);
    AfterName(fmt, text, tail);
    assert u[1..] == (if fmt then [TAB] + text else text) + tail;
  }

  lemma SameAhead(t: seq<Octet>, u: seq<Octet>)
    requires AfterSpace(t) == AfterSpace(u)
    ensures ReadMembers(t) == ReadMembers(u)
  {
    hide ReadValue, ReadString, AfterSpace;
  }

  lemma MembersAfterComma(fmt: bool, t: seq<Octet>)
    ensures MoreMembers(AfterSpace(AfterMember(false, fmt) + t)) == ReadMembers(t)
  {
    hide ReadValue, ReadString;
    var u: seq<Octet> := AfterMember(false, fmt) + t;
    assert AfterSpace(u) == u;
    SkipsOne(NEWLINE, t);
    assert u[1..] == if fmt then [NEWLINE] + t else t;
    SameAhead(u[1..], t);
  }

  lemma MembersEnd(depth: int, fmt: bool, rest: seq<Octet>)
    ensures var close := (if fmt then Tabs(depth) else []) + [CLOSE_BRACE] + rest;
            MoreMembers(AfterSpace(AfterMember(true, fmt) + close)) == Ok([], rest)
  {
    hide ReadMembers;
    var indent := if fmt then Tabs(depth) else [];
    var brace: seq<Octet> := [CLOSE_BRACE] + rest;
    assert indent + [CLOSE_BRACE] + rest == indent + brace;
    SkipsTabs(if fmt then depth else 0, brace);
    assert AfterSpace(brace) == brace && brace[1..] == rest;
    if fmt {
      SkipsOne(NEWLINE, indent + brace);
    } else {
      assert AfterMember(true, fmt) + (indent + brace) == brace;
    }
  }

  lemma ListedUnfolds(pairs: seq<Pair>, depth: int, fmt: bool, close: seq<Octet>)
    requires pairs != []
    ensures Listed(pairs, depth, fmt) + close ==
            NameText(pairs[0].name, depth, fmt) + pairs[0].value +
            (AfterMember(|pairs| == 1, fmt) + (Listed(pairs[1..], depth, fmt) + close))
  {
    hide NameText, AfterMember;
  }

  /** Members from the given one on, and the end of the object. */
  lemma {:induction false} MembersReadBack(v: JSON, i: nat, depth: int, fmt: bool, rest: seq<Octet>)
    requires v.Object? && Printable(v) && i < |v.members|
    ensures ReadMembers(Listed(MemberTexts(v, depth, fmt)[i..], depth + 1, fmt) +
                        ((if fmt then Tabs(depth) else []) + [CLOSE_BRACE] + rest)) == Ok(v.members[i..], rest)
    decreases v, 0, |v.members| - i
  {
    hide ValueText, MemberTexts, ReadValue, ReadMember, MoreMembers, Printable, StringText, AfterSpace;
    var pairs, member := MemberTexts(v, depth, fmt), v.members[i];
    var last := i + 1 == |v.members|;
    var close: seq<Octet> := (if fmt then Tabs(depth) else []) + [CLOSE_BRACE] + rest;
    MemberTextAt(v, i, depth, fmt);
    FirstByte(member.value, depth + 1, fmt);
    var next: seq<Octet> := Listed(pairs[i + 1..], depth + 1, fmt) + close;
    var tail: seq<Octet> := AfterMember(last, fmt) + next;
    if last {
      assert next == close;
      MembersEnd(depth, fmt, rest);
    } else {
      MembersReadBack(v, i + 1, depth, fmt, rest);
      MembersAfterComma(fmt, next);
    }
    ReadsBack(member.value, depth + 1, fmt, tail);
    MemberStep(member, pairs[i].value, depth + 1, fmt, tail);
    ListedUnfolds(pairs[i..], depth + 1, fmt, close);
    assert pairs[i..][1..] == pairs[i + 1..];
    assert v.members[i..] == [member] + v.members[i + 1..];
  }

  lemma WordsReadBack(rest: seq<Octet>)
    ensures ReadValue(NULL_WORD + rest) == Ok(Null, rest)
    ensures ReadValue(FALSE_WORD + rest) == Ok(False, rest)
    ensures ReadValue(TRUE_WORD + rest) == Ok(True, rest)
  {
    hide ReadItems, ReadMembers, ReadString, ReadNumber, AfterSpace;
    assert (NULL_WORD + rest)[4..] == rest;
    assert (FALSE_WORD + rest)[5..] == rest && (FALSE_WORD + rest)[0] == 102;
    assert (TRUE_WORD + rest)[4..] == rest && (TRUE_WORD + rest)[0] == 116;
  }

  lemma FirstOfPrefix(word: seq<Octet>, t: seq<Octet>)
    requires word != [] && t != []
    ensures word <= t ==> word[0] == t[0]
  {
  }

  lemma NoWord(t: seq<Octet>)
    requires t != [] && t[0] != NULL_WORD[0] && t[0] != FALSE_WORD[0] && t[0] != TRUE_WORD[0]
    ensures !(NULL_WORD <= t) && !(FALSE_WORD <= t) && !(TRUE_WORD <= t)
  {
    FirstOfPrefix(NULL_WORD, t);
    FirstOfPrefix(FALSE_WORD, t);
    FirstOfPrefix(TRUE_WORD, t);
  }

  lemma NumberDispatch(m: int, rest: seq<Octet>)
    ensures ReadValue(NumberText(m) + rest) == ReadNumber(NumberText(m) + rest)
  {
    hide Decimal, ReadItems, ReadMembers, ReadString, ReadNumber, AfterSpace;
    NoWord(NumberText(m) + rest);
  }

  lemma StringDispatch(t: seq<Octet>)
    requires Peek(t) == QUOTE
    ensures ReadValue(t) == MapOk(ReadString(t), s => String(s))
  {
    hide ReadItems, ReadMembers, ReadString, ReadNumber, AfterSpace;
    NoWord(t);
  }

  /** Parsing printed text gives back the tree and the text after it, formatted
      or not and at every depth. Only a number can run into what follows. */
  lemma {:induction false} ReadsBack(v: JSON, depth: int, fmt: bool, rest: seq<Octet>)
    requires Printable(v) && (v.Number? ==> !ContinuesNumber(rest))
    ensures ReadValue(ValueText(v, depth, fmt) + rest) == Ok(v, rest)
    decreases v, 1, 0
  {
    hide ReadValue, ReadItems, ReadMembers, ReadString, ReadNumber, Joined, Listed, AfterSpace, ItemTexts, MemberTexts;
    match v
    case Number(value) => 
      NumberDispatch(value.Floor, rest);
      NumberReadsBack(value.Floor, rest);
    case String(text) =>
      StringReadsBack(text, rest);
      StringDispatch(StringText(text) + rest);
    case Array(items) =>
      ArrayReadsBack(v, depth, fmt, rest);
    case Object(members) =>
      ObjectReadsBack(v, depth, fmt, rest);
    case _ =>
      WordsReadBack(rest);
  }

  lemma ArrayDispatch(u: seq<Octet>)
    requires u != [] && u[0] > SPACE
    ensures ReadValue([OPEN_BRACKET] + u) ==
            if u[0] == CLOSE_BRACKET then Ok(Array([]), u[1..]) else MapOk(ReadItems(u), items => Array(items))
  {
    hide ReadItems, ReadMembers, ReadString, ReadNumber;
    NoWord([OPEN_BRACKET] + u);
    assert ([OPEN_BRACKET] + u)[1..] == u;
  }

  lemma {:induction false} SpaceGone(t: seq<Octet>)
    ensures AfterSpace(AfterSpace(t)) == AfterSpace(t)
  {
    if t != [] && t[0] <= SPACE {
      SpaceGone(t[1..]);
    }
  }

  lemma ObjectDispatch(t: seq<Octet>)
    ensures ReadValue([OPEN_BRACE] + t) ==
            var u := AfterSpace(t);
            if Peek(u) == CLOSE_BRACE then Ok(Object([]), u[1..]) else MapOk(ReadMembers(t), members => Object(members))
  {
    hide ReadItems, ReadMembers, ReadString, ReadNumber, AfterSpace;
    NoWord([OPEN_BRACE] + t);
    assert ([OPEN_BRACE] + t)[1..] == t;
    SpaceGone(t);
    SameAhead(AfterSpace(t), t);
  }

  lemma ArrayReadsBack(v: JSON, depth: int, fmt: bool, rest: seq<Octet>)
    requires v.Array? && Printable(v)
    ensures ReadValue(ValueText(v, depth, fmt) + rest) == Ok(v, rest)
    decreases v, 0, |v.items| + 1
  {
    hide ReadValue, ReadItems, AfterSpace, ItemTexts, Printable;
    var texts := ItemTexts(v, depth, fmt);
    var u: seq<Octet> := Joined(texts, fmt) + [CLOSE_BRACKET] + rest;
    assert ValueText(v, depth, fmt) + rest == [OPEN_BRACKET] + u;
    if v.items == [] {
      assert u == [CLOSE_BRACKET] + rest && u[1..] == rest;
    } else {
      ItemTextAt(v, 0, depth, fmt);
      FirstByte(v.items[0], depth + 1, fmt);
      ItemsReadBack(v, 0, depth, fmt, rest);
      assert texts[0..] == texts && v.items[0..] == v.items;
    }
    ArrayDispatch(u);
  }

  lemma NoTabs()
    ensures Tabs(0) == []
  {
  }

  /** The text of an object's first member starts, after white space, with a quote. */
  lemma QuoteAhead(name: seq<Octet>, value: seq<Octet>, more: seq<Pair>, depth: int, fmt: bool, close: seq<Octet>)
    ensures Peek(AfterSpace(Listed([Pair(StringText(name), value)] + more, depth, fmt) + close)) == QUOTE
  {
    hide Listed, AfterSpace, Escaped, Tabs, AfterMember;
    var pairs := [Pair(StringText(name), value)] + more;
    ListedUnfolds(pairs, depth, fmt, close);
    var after: seq<Octet> := (if fmt then [COLON, TAB] else [COLON]) + value +
      (AfterMember(|pairs| == 1, fmt) + (Listed(pairs[1..], depth, fmt) + close));
    var indent := if fmt then Tabs(depth) else [];
    assert Listed(pairs, depth, fmt) + close == indent + (StringText(name) + after);
    NoTabs();
    SkipsTabs(if fmt then depth else 0, StringText(name) + after);
    NameAhead(name, after);
  }

  lemma NewlineSkipped(fmt: bool, t: seq<Octet>)
    ensures AfterSpace((if fmt then [NEWLINE] else []) + t) == AfterSpace(t)
  {
    if fmt {
      SkipsOne(NEWLINE, t);
    } else {
      assert [] + t == t;
    }
  }

  lemma EmptyObjectReadsBack(depth: int, fmt: bool, rest: seq<Octet>)
    ensures ReadValue(ValueText(Object([]), depth, fmt) + rest) == Ok(Object([]), rest)
  {
    hide ReadValue, ReadMembers, Tabs;
    var tabs := if fmt then Tabs(depth - 1) else [];
    var brace: seq<Octet> := [CLOSE_BRACE] + rest;
    var t: seq<Octet> := (if fmt then [NEWLINE] else []) + (tabs + brace);
    assert ValueText(Object([]), depth, fmt) + rest == [OPEN_BRACE] + t;
    NewlineSkipped(fmt, tabs + brace);
    SkipsTabs(if fmt then depth - 1 else 0, brace);
    NoTabs();
    assert AfterSpace(brace) == brace && brace[1..] == rest;
    ObjectDispatch(t);
  }

  lemma ObjectReadsBack(v: JSON, depth: int, fmt: bool, rest: seq<Octet>)
    requires v.Object? && Printable(v)
    ensures ReadValue(ValueText(v, depth, fmt) + rest) == Ok(v, rest)
    decreases v, 0, |v.members| + 1
  {
    hide ReadValue, ReadMembers, AfterSpace, MemberTexts, Printable, Tabs, Listed;
    if v.members == [] {
      EmptyObjectReadsBack(depth, fmt, rest);
    } else {
      var pairs := MemberTexts(v, depth, fmt);
      var close: seq<Octet> := (if fmt then Tabs(depth) else []) + [CLOSE_BRACE] + rest;
      var inner: seq<Octet> := Listed(pairs, depth + 1, fmt) + close;
      var t: seq<Octet> := (if fmt then [NEWLINE] else []) + inner;
      assert ValueText(v, depth, fmt) + rest == [OPEN_BRACE] + t;
      MembersReadBack(v, 0, depth, fmt, rest);
      assert pairs[0..] == pairs && v.members[0..] == v.members;
      MemberTextAt(v, 0, depth, fmt);
      assert [pairs[0]] + pairs[1..] == pairs;
      QuoteAhead(v.members[0].name, pairs[0].value, pairs[1..], depth + 1, fmt, close);
      NewlineSkipped(fmt, inner);
      SameAhead(t, inner);
      ObjectDispatch(t);
    }
  }
}
