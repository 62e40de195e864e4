/** The parsing functions of src/guacenc/cJSON.c. Each follows the loops of the
    program and is proved to compute the reading function of the same name. */
module CJsonParser {
  import opened Basics
  import opened Unicode
  import opened CJson
  import opened CJsonPrinter

  /** skip. */
  method SkipSpace(t: seq<Octet>) returns (r: seq<Octet>)
    ensures r == AfterSpace(t)
  {
    r := t;
    while r != [] && r[0] <= SPACE
      invariant AfterSpace(r) == AfterSpace(t)
    {
      r := r[1..];
    }
  }

  method ScanDigits(t: seq<Octet>, n: nat) returns (value: nat, rest: seq<Octet>)
    ensures Run(value, rest) == Digits(t, n)
  {
    value, rest := n, t;
    while IsDigit(Peek(rest))
      invariant Digits(rest, value) == Digits(t, n)
      decreases |rest|
    {
      value := value * 10 + (rest[0] - ZERO);
      rest := rest[1..];
    }
  }

  method ScanWhole(t: seq<Octet>) returns (n: nat, num: seq<Octet>)
    ensures Run(n, num) == Whole(t)
  {
    hide Digits;
    n, num := 0, t;
    if Peek(num) == ZERO {
      num := num[1..];
    }
    if IsDigit(Peek(num)) && num[0] != ZERO {
      n, num := ScanDigits(num[1..], num[0] - ZERO);
    }
  }

  /** parse_number: sign, digits, fraction and exponent, each optional. */
  method ParseNumber(t: seq<Octet>) returns (r: Result<JSON>)
    ensures r == ReadNumber(t)
  {
    hide Digits, Scaled, Whole;
    var num, scale, subscale: nat, negative := t, 0, 0, false;
    var exponentSign := 1;
    if Peek(num) == MINUS {
      negative, num := true, num[1..];
    }
    var n: nat;
    n, num := ScanWhole(num);
    if HasFraction(num) {
      var before := |num| - 1;
      n, num := ScanDigits(num[1..], n);
      scale := |num| - before;
    }
    if HasExponent(num) {
      num := num[1..];
      if Peek(num) == PLUS {
        num := num[1..];
      } else if Peek(num) == MINUS {
        exponentSign, num := -1, num[1..];
      }
      subscale, num := ScanDigits(num, 0);
    }
    assert subscale * exponentSign == if exponentSign == 1 then subscale else 0 - subscale;
    r := Ok(Number(Scaled(negative, n, scale + subscale * exponentSign)), num);
  }

  function Counted(len: nat, r: Result<nat>): Result<nat> {
    if r.Ok? then Ok(len + r.value, r.rest) else r
  }

  /** The pass of parse_string that sizes the output buffer. */
  method CountString(t: seq<Octet>) returns (r: Result<nat>)
    ensures r == Reserve(t)
  {
    var ptr, len: nat := t, 0;
    while ptr != [] && ptr[0] != QUOTE
      invariant Counted(len, Reserve(ptr)) == Reserve(t)
      decreases |ptr|
    {
      if ptr == [BACKSLASH] {
        return Undefined;
      }
      len := len + 1;
      ptr := if ptr[0] == BACKSLASH then ptr[2..] else ptr[1..];
    }
    r := Ok(len, ptr);
  }

  lemma PrependUnits<T>(xs: seq<T>, ys: seq<T>, r: Result<seq<T>>)
    ensures Prepend(xs, Prepend(ys, r)) == Prepend(xs + ys, r)
    ensures Prepend([], r) == r
  {
    if r.Ok? {
      assert xs + (ys + r.value) == xs + ys + r.value;
      assert [] + r.value == r.value;
    }
  }

  lemma FailedPrepend<T>(xs: seq<T>)
    ensures Prepend(xs, Undefined) == Undefined && Prepend(xs, Bad) == Bad
  {
  }

  lemma EndPrepend<T>(xs: seq<T>, rest: seq<Octet>)
    ensures Prepend(xs, Ok([], rest)) == Ok(xs, rest)
  {
    assert xs + [] == xs;
  }

  /** The pass of parse_string that decodes. */
  method DecodeString(t: seq<Octet>) returns (r: Result<seq<Octet>>)
    ensures r == Body(t)
  {
    hide NextUnit, Prepend;
    var ptr := t;
    var out: seq<Octet> := [];
    PrependUnits([], [], Body(t));
    while ptr != [] && ptr[0] != QUOTE
      invariant Prepend(out, Body(ptr)) == Body(t)
      decreases |ptr|
    {
      if ptr == [BACKSLASH] {
        FailedPrepend(out);
        return Undefined;
      }
      var u := NextUnit(ptr);
      if u.size > |ptr| {
        FailedPrepend(out);
        return Undefined;
      }
      PrependUnits(out, u.bytes, Body(ptr[u.size..]));
      out := out + u.bytes;
      ptr := ptr[u.size..];
    }
    EndPrepend(out, if ptr == [] then ptr else ptr[1..]);
    r := Ok(out, if ptr == [] then ptr else ptr[1..]);
  }

  /** parse_string: size the output, then decode into it. */
  method ParseString(t: seq<Octet>) returns (r: Result<seq<Octet>>)
    ensures r == ReadString(t)
  {
    hide Body, Reserve;
    if Peek(t) != QUOTE {
      return Bad;
    }
    var counted := CountString(t[1..]);
    r := DecodeString(t[1..]);
    if !counted.Ok? || !r.Ok? || |r.value| > counted.value {
      r := Undefined;
    }
  }

  /** Turn a failed result into one of another type. */
  function Failed<T, U>(r: Result<T>): Result<U>
    requires !r.Ok?
  {
    if r.Bad? then Bad else Undefined
  }

  lemma ArrayText(t: seq<Octet>)
    requires Peek(t) == OPEN_BRACKET
    ensures ReadValue(t) ==
            var u := AfterSpace(t[1..]);
            if Peek(u) == CLOSE_BRACKET then Ok(Array([]), u[1..]) else MapOk(ReadItems(u), items => Array(items))
  {
    hide ReadItems, AfterSpace;
  }

  /** parse_array. */
  method ParseArray(t: seq<Octet>) returns (r: Result<JSON>)
    requires Peek(t) == OPEN_BRACKET
    ensures r == ReadValue(t)
    decreases |t|, 0
  {
    hide ReadValue, AfterSpace;
    var value := SkipSpace(t[1..]);
    ArrayText(t);
    if Peek(value) == CLOSE_BRACKET {
      return Ok(Array([]), value[1..]);
    }
    ghost var start := value;
    var children: seq<JSON> := [];
    var next := SkipSpace(value);
    var child := ParseValue(next);
    if !child.Ok? {
      return Failed(child);
    }
    children := [child.value];
    value := SkipSpace(child.rest);
    while Peek(value) == COMMA
      invariant |value| < |t| && Prepend(children, MoreItems(value)) == ReadItems(start)
      decreases |value|
    {
      next := SkipSpace(value[1..]);
      child := ParseValue(next);
      if !child.Ok? {
        return Failed(child);
      }
      var after := SkipSpace(child.rest);
      PrependUnits(children, [child.value], MoreItems(after));
      children := children + [child.value];
      value := after;
    }
    if Peek(value) == CLOSE_BRACKET {
      EndPrepend(children, value[1..]);
      return Ok(Array(children), value[1..]);
    }
    r := Bad;
  }

  lemma ObjectText(t: seq<Octet>)
    requires Peek(t) == OPEN_BRACE
    ensures ReadValue(t) ==
            var u := AfterSpace(t[1..]);
            if Peek(u) == CLOSE_BRACE then Ok(Object([]), u[1..]) else MapOk(ReadMembers(u), members => Object(members))
  {
    hide ReadMembers, AfterSpace;
  }

  /** The name, colon and value of one member. */
  method ParseMember(t: seq<Octet>) returns (r: Result<Member>)
    ensures r == ReadMember(t)
    decreases |t|, 2
  {
    hide ReadValue, ReadString, AfterSpace;
    var next := SkipSpace(t);
    var name := ParseString(next);
    if !name.Ok? {
      return Failed(name);
    }
    var value := SkipSpace(name.rest);
    if Peek(value) != COLON {
      return Bad;
    }
    next := SkipSpace(value[1..]);
    var v := ParseValue(next);
    if !v.Ok? {
      return Failed(v);
    }
    r := Ok(Member(name.value, v.value), v.rest);
  }

  /** parse_object. */
  method ParseObject(t: seq<Octet>) returns (r: Result<JSON>)
    requires Peek(t) == OPEN_BRACE
    ensures r == ReadValue(t)
    decreases |t|, 0
  {
    hide ReadValue, ReadMember, AfterSpace;
    var value := SkipSpace(t[1..]);
    ObjectText(t);
    if Peek(value) == CLOSE_BRACE {
      return Ok(Object([]), value[1..]);
    }
    ghost var start := value;
    var child := ParseMember(value);
    if !child.Ok? {
      return Failed(child);
    }
    var children: seq<Member> := [child.value];
    value := SkipSpace(child.rest);
    while Peek(value) == COMMA
      invariant |value| < |t| && Prepend(children, MoreMembers(value)) == ReadMembers(start)
      decreases |value|
    {
      child := ParseMember(value[1..]);
      if !child.Ok? {
        return Failed(child);
      }
      var after := SkipSpace(child.rest);
      PrependUnits(children, [child.value], MoreMembers(after));
      children := children + [child.value];
      value := after;
    }
    if Peek(value) == CLOSE_BRACE {
      EndPrepend(children, value[1..]);
      return Ok(Object(children), value[1..]);
    }
    r := Bad;
  }

  /** parse_value. */
  method ParseValue(t: seq<Octet>) returns (r: Result<JSON>)
    ensures r == ReadValue(t)
    decreases |t|, 1
  {
    hide ReadString, ReadNumber, ReadItems, ReadMembers, AfterSpace;
    if NULL_WORD <= t {
      r := Ok(Null, t[4..]);
    } else if FALSE_WORD <= t {
      r := Ok(False, t[5..]);
    } else if TRUE_WORD <= t {
      r := Ok(True, t[4..]);
    } else if Peek(t) == QUOTE {
      var s := ParseString(t);
      r := MapOk(s, text => String(text));
    } else if Peek(t) == MINUS || IsDigit(Peek(t)) {
      r := ParseNumber(t);
    } else if Peek(t) == OPEN_BRACKET {
      r := ParseArray(t);
    } else if Peek(t) == OPEN_BRACE {
      r := ParseObject(t);
    } else {
      r := Bad;
    }
  }

  /** cJSON_ParseWithOpts, with the text after the value. */
  method Parse(t: seq<Octet>, requireEnd: bool) returns (r: Result<JSON>)
    ensures requireEnd && r.Ok? ==> r.rest == []
    ensures var v := ReadValue(AfterSpace(t));
            r == if !requireEnd || !v.Ok? then v
                 else if AfterSpace(v.rest) == [] then Ok(v.value, []) else Bad
  {
    hide ReadValue, AfterSpace;
    var start := SkipSpace(t);
    r := ParseValue(start);
    if r.Ok? && requireEnd {
      var end := SkipSpace(r.rest);
      r := if end == [] then Ok(r.value, end) else Bad;
    }
  }

  /** Printing a tree and parsing the text gives back the tree and uses up all of
      the text. */
  method PrintThenParse(v: JSON, fmt: bool, requireEnd: bool) returns (r: Result<JSON>)
    requires Printable(v)
    ensures r == Ok(v, [])
  {
    hide ReadValue, ValueText, Printable;
    var out := PrintValue(v, 0, fmt);
    var text := TextOf(out, ValueText(v, 0, fmt));
    FirstByte(v, 0, fmt);
    ReadsBack(v, 0, fmt, []);
    assert text + [] == text;
    r := Parse(text, requireEnd);
  }

  // ------------------------------------------------------- well-formed strings

  /** How the escapes of a string stand, read from its front: all are complete; or
      one is cut off by the end of the text; or the four bytes after some \u hold
      a quote or a backslash, so that the two passes lose step there. */
  datatype Escapes = Complete | CutOff | Crossing

  function EscapesOf(t: seq<Octet>): Escapes
    decreases |t|
  {
    if t == [] || t[0] == QUOTE then Complete
    else if t[0] != BACKSLASH then EscapesOf(t[1..])
    else if |t| < 2 then CutOff
    else if t[1] != SMALL_U then EscapesOf(t[2..])
    else if |t| < 6 then CutOff
    else if exists k :: 2 <= k < 6 && t[k] in [QUOTE, BACKSLASH] then Crossing
    else EscapesOf(t[6..])
  }

  lemma {:induction false} ReserveSkipsPlain(t: seq<Octet>, k: nat)
    requires k <= |t| && forall i :: 0 <= i < k ==> t[i] !in [QUOTE, BACKSLASH]
    ensures Reserve(t) == Counted(k, Reserve(t[k..]))
  {
    if k > 0 {
      ReserveSkipsPlain(t[1..], k - 1);
      assert t[1..][k - 1..] == t[k..];
    } else {
      assert t[0..] == t;
    }
  }

  lemma ReserveEscaped(t: seq<Octet>)
    requires |t| >= 2 && t[0] == BACKSLASH
    ensures Reserve(t) == Counted(1, Reserve(t[2..]))
  {
  }

  /** A \u escape counts five towards the space reserved. */
  lemma ReserveUnicode(t: seq<Octet>)
    requires |t| >= 6 && t[0] == BACKSLASH && forall k :: 2 <= k < 6 ==> t[k] !in [QUOTE, BACKSLASH]
    ensures Reserve(t) == Counted(5, Reserve(t[6..]))
  {
    hide Reserve;
    ReserveEscaped(t);
    ReserveSkipsPlain(t[2..], 4);
    assert t[2..][4..] == t[6..];
  }

  /** Where a pair of \u escapes is taken together, the second is one too. */
  lemma SecondHalf(t: seq<Octet>)
    requires |t| >= 6 && UnicodeEscape(t).size == 12
    ensures |t| >= 8 && t[6] == BACKSLASH && t[7] == SMALL_U
  {
    hide Hex4;
  }

  /** When all escapes are complete both passes end at the same place, and the decoded
      string fits the space reserved for it. */
  lemma {:induction false} CompleteFits(t: seq<Octet>)
    requires EscapesOf(t).Complete?
    ensures Body(t).Ok? && Reserve(t).Ok? && |Body(t).value| <= Reserve(t).value
    ensures Body(t).rest == if Reserve(t).rest == [] then [] else Reserve(t).rest[1..]
    decreases |t|
  {
    if t == [] || t[0] == QUOTE {
    } else if t[0] != BACKSLASH {
      CompleteFits(t[1..]);
    } else if t[1] != SMALL_U {
      CompleteFits(t[2..]);
    } else {
      UnicodeFits(t);
    }
  }

  lemma {:induction false} UnicodeFits(t: seq<Octet>)
    requires EscapesOf(t).Complete? && |t| >= 2 && t[0] == BACKSLASH && t[1] == SMALL_U
    ensures Body(t).Ok? && Reserve(t).Ok? && |Body(t).value| <= Reserve(t).value
    ensures Body(t).rest == if Reserve(t).rest == [] then [] else Reserve(t).rest[1..]
    decreases |t|, 0
  {
    hide UnicodeEscape;
    ReserveUnicode(t);
    if UnicodeEscape(t).size == 12 {
      SecondHalf(t);
      ReserveUnicode(t[6..]);
      assert t[6..][6..] == t[12..];
      CompleteFits(t[12..]);
    } else {
      CompleteFits(t[6..]);
    }
  }

  /** A string whose escapes are complete is parsed without touching memory it should
      not, whether its \u escapes are hexadecimal or not. */
  lemma CompleteIsDefined(t: seq<Octet>)
    requires Peek(t) == QUOTE && EscapesOf(t[1..]).Complete?
    ensures ReadString(t).Ok?
  {
    hide Body, Reserve, EscapesOf;
    CompleteFits(t[1..]);
  }

  /** An escape cut off by the end of the text makes the parser read past it. */
  lemma {:induction false} CutOffOverruns(t: seq<Octet>)
    requires EscapesOf(t).CutOff?
    ensures Body(t).Undefined?
    decreases |t|
  {
    hide UnicodeEscape, Unescape;
    if t[0] != BACKSLASH {
      CutOffOverruns(t[1..]);
    } else if |t| >= 2 {
      if t[1] != SMALL_U {
        CutOffOverruns(t[2..]);
      } else if |t| >= 6 {
        if UnicodeEscape(t).size == 12 {
          SecondHalf(t);
          if |t| >= 12 {
            assert t[6..][6..] == t[12..];
            CutOffOverruns(t[12..]);
          }
        } else {
          CutOffOverruns(t[6..]);
        }
      }
    }
  }

  lemma CutOffIsUndefined(t: seq<Octet>)
    requires Peek(t) == QUOTE && EscapesOf(t[1..]).CutOff?
    ensures ReadString(t).Undefined?
  {
    hide Body, Reserve, EscapesOf;
    CutOffOverruns(t[1..]);
  }

  lemma {:induction false} PlainBody(s: seq<Octet>)
    requires forall k :: 0 <= k < |s| ==> s[k] !in [QUOTE, BACKSLASH]
    ensures Body(s + [QUOTE]) == Ok(s, [])
  {
    if s != [] {
      PlainBody(s[1..]);
      assert (s + [QUOTE])[1..] == s[1..] + [QUOTE];
      assert [s[0]] + s[1..] == s;
    }
  }

  lemma SkippedEscape(t: seq<Octet>)
    requires |t| >= 6 && t[0] == BACKSLASH && t[1] == SMALL_U && t[2] == QUOTE
    ensures Body(t) == Body(t[6..]) && Reserve(t) == Ok(1, t[2..])
  {
    hide Utf8;
    assert t[2..][0] == QUOTE && HexValue(QUOTE) == -1;
    assert Hex4(t[2..]) == 0;
    assert NextUnit(t) == Unit([], 6);
    PrependUnits([], [], Body(t[6..]));
  }

  /** Where the four bytes of an escape begin with a quote, the passes lose step: the
      first ends at that quote, having counted one byte, and the second goes on
      behind the escape. Such a string is read as what follows if that is at most
      one byte, and otherwise overflows its buffer. */
  lemma CrossingReads(three: seq<Octet>, tail: seq<Octet>)
    requires |three| == 3 && forall k :: 0 <= k < |tail| ==> tail[k] !in [QUOTE, BACKSLASH]
    ensures var t: seq<Octet> := [BACKSLASH, SMALL_U, QUOTE] + three + tail + [QUOTE];
            && EscapesOf(t).Crossing?
            && ReadString([QUOTE] + t) == if |tail| <= 1 then Ok(tail, []) else Undefined
  {
    hide Body, Reserve;
    var t: seq<Octet> := [BACKSLASH, SMALL_U, QUOTE] + three + tail + [QUOTE];
    assert t[2] == QUOTE && t[2] in [QUOTE, BACKSLASH];
    assert t[6..] == tail + [QUOTE];
    PlainBody(tail);
    SkippedEscape(t);
    assert ([QUOTE] + t)[1..] == t;
  }

  /** The shortest failing inputs of both kinds: an escape cut off, and one that
      takes the closing quote with it. */
  lemma FailingStrings(a: Octet)
    requires a !in [QUOTE, BACKSLASH]
    ensures ReadString([QUOTE, BACKSLASH]) == Undefined && ReadString([QUOTE, BACKSLASH, SMALL_U]) == Undefined
    ensures ReadString([QUOTE] + ([BACKSLASH, SMALL_U, QUOTE] + [a, a, a] + [a, a] + [QUOTE])) == Undefined
  {
    CutOffIsUndefined([QUOTE, BACKSLASH]);
    CutOffIsUndefined([QUOTE, BACKSLASH, SMALL_U]);
    CrossingReads([a, a, a], [a, a]);
  }
}
