/** The unbuffered printing functions of src/guacenc/cJSON.c. Each computes the
    size of its output first, allocates a buffer of that size and fills it. All
    writes stay within the buffer. */
module CJsonPrinter {
  import opened Basics
  import opened Unicode
  import opened CJson

  /** A buffer holds a C string: the text, then the terminator. */
  ghost predicate Holds(out: array<Byte>, text: seq<Octet>)
    reads out
  {
    |text| < out.Length && out[..|text|] == text && out[|text|] == 0
  }

  /** Write bytes at a pointer and advance it. */
  method Put(out: array<Byte>, at: nat, bytes: seq<Byte>) returns (next: nat)
    requires at + |bytes| <= out.Length
    modifies out
    ensures next == at + |bytes| && out[..next] == old(out[..at]) + bytes
  {
    forall k | 0 <= k < |bytes| {
      out[at + k] := bytes[k];
    }
    next := at + |bytes|;
  }

  /** Write the terminator. */
  method Finish(out: array<Byte>, at: nat, ghost text: seq<Octet>)
    requires at < out.Length && out[..at] == text
    modifies out
    ensures Holds(out, text)
  {
    out[at] := 0;
    assert out[..at] == old(out[..at]);
  }

  /** strlen, and the text it measures. */
  method TextOf(out: array<Byte>, ghost text: seq<Octet>) returns (s: seq<Octet>)
    requires Holds(out, text)
    ensures s == text
  {
    var n := 0;
    forall k | 0 <= k < |text| ensures out[k] == text[k] {
      assert out[..|text|][k] == out[k];
    }
    while out[n] != 0
      invariant n <= |text|
      decreases |text| - n
    {
      n := n + 1;
    }
    s := out[..n];
  }

  method CopyOf(text: seq<Octet>) returns (out: array<Byte>)
    ensures fresh(out) && Holds(out, text) && out.Length == |text| + 1
  {
    out := new Byte[|text| + 1](_ => 0);
    var ptr: nat := Put(out, 0, text);
    Finish(out, ptr, text);
  }

  lemma {:induction false} PlainEscaped(s: seq<Octet>)
    requires forall k :: 0 <= k < |s| ==> |Escape(s[k])| == 1
    ensures Escaped(s) == s
  {
    if s != [] {
      PlainEscaped(s[1..]);
    }
  }

  lemma EscapedStep(s: seq<Octet>, i: nat)
    requires i < |s|
    ensures Escaped(s[i..]) == Escape(s[i]) + Escaped(s[i + 1..])
  {
    assert s[i..][1..] == s[i + 1..];
  }

  /** Does the string hold a byte that has to be escaped? */
  method NeedsEscape(s: seq<Octet>) returns (flag: bool)
    ensures !flag ==> Escaped(s) == s
  {
    flag := false;
    for i := 0 to |s|
      invariant !flag ==> forall k :: 0 <= k < i ==> |Escape(s[k])| == 1
    {
      flag := flag || s[i] < 32 || s[i] == QUOTE || s[i] == BACKSLASH;
    }
    if !flag {
      PlainEscaped(s);
    }
  }

  lemma NoneEscaped()
    ensures Escaped([]) == []
  {
  }

  lemma EscapeSize(c: Octet)
    ensures |Escape(c)| == if c in {QUOTE, BACKSLASH, 8, 12, NEWLINE, 13, TAB} then 2 else if c < 32 then 6 else 1
  {
  }

  /** The size of the escaped string, counted byte by byte. */
  method EscapedSize(s: seq<Octet>) returns (len: nat)
    ensures len == |Escaped(s)|
  {
    hide Escaped, Escape;
    len := 0;
    assert s[0..] == s;
    for i := 0 to |s|
      invariant len + |Escaped(s[i..])| == |Escaped(s)|
    {
      EscapedStep(s, i);
      EscapeSize(s[i]);
      len := len + 1;
      if s[i] in {QUOTE, BACKSLASH, 8, 12, NEWLINE, 13, TAB} {
        len := len + 1;
      } else if s[i] < 32 {
        len := len + 5;
      }
    }
    NoneEscaped();
    assert s[|s|..] == [];
  }

  /** print_string_ptr. The buffer is exactly as large as its text and terminator. */
  method PrintString(s: seq<Octet>) returns (out: array<Byte>)
    ensures fresh(out) && Holds(out, StringText(s)) && out.Length == |StringText(s)| + 1
  {
    hide Escaped, Escape;
    var flag := NeedsEscape(s);
    if !flag {
      out := CopyOf([QUOTE] + s + [QUOTE]);
      return;
    }
    var len := EscapedSize(s);
    out := new Byte[len + 3](_ => 0);
    var ptr: nat := Put(out, 0, [QUOTE]);
    assert s[0..] == s;
    for i := 0 to |s|
      invariant ptr <= out.Length && out[..ptr] + Escaped(s[i..]) == [QUOTE] + Escaped(s)
    {
      EscapedStep(s, i);
      ghost var done := out[..ptr];
      assert |done + Escaped(s[i..])| == 1 + len;
      ptr := Put(out, ptr, Escape(s[i]));
      assert done + (Escape(s[i]) + Escaped(s[i + 1..])) == (done + Escape(s[i])) + Escaped(s[i + 1..]);
    }
    NoneEscaped();
    assert s[|s|..] == [];
    assert out[..ptr] == [QUOTE] + Escaped(s);
    ptr := Put(out, ptr, [QUOTE]);
    Finish(out, ptr, StringText(s));
  }

  lemma NumberIsShort(n: int)
    requires INT_MIN <= n <= INT_MAX
    ensures |NumberText(n)| <= 11
  {
    TenDigits();
    DecimalIsShort(if n < 0 then -n else n, 10);
  }

  /** print_number, on integers in the range of int. */
  method PrintNumber(value: real) returns (out: array<Byte>)
    requires IntRange(value)
    ensures fresh(out) && Holds(out, NumberText(value.Floor))
  {
    if value == 0.0 {
      ZeroText();
      out := CopyOf([ZERO]);
    } else {
      hide Decimal;
      out := new Byte[21](_ => 0);
      NumberIsShort(value.Floor);
      var ptr: nat := Put(out, 0, NumberText(value.Floor));
      Finish(out, ptr, NumberText(value.Floor));
    }
  }

  // ------------------------------------------------------------------- arrays

  function Extra(fmt: bool): nat { if fmt then 1 else 0 }

  /** The space print_array reserves for its entries. */
  function ItemSpace(texts: seq<seq<Octet>>, fmt: bool): nat {
    if texts == [] then 0 else |texts[0]| + 2 + Extra(fmt) + ItemSpace(texts[1..], fmt)
  }

  lemma {:induction false} ItemSpaceSnoc(texts: seq<seq<Octet>>, text: seq<Octet>, fmt: bool)
    ensures ItemSpace(texts + [text], fmt) == ItemSpace(texts, fmt) + |text| + 2 + Extra(fmt)
  {
    if texts != [] {
      ItemSpaceSnoc(texts[1..], text, fmt);
      assert (texts + [text])[1..] == texts[1..] + [text];
    }
  }

  lemma {:induction false} JoinedFits(texts: seq<seq<Octet>>, fmt: bool)
    ensures |Joined(texts, fmt)| <= ItemSpace(texts, fmt)
  {
    if texts != [] {
      JoinedFits(texts[1..], fmt);
    }
  }

  lemma JoinedStep(texts: seq<seq<Octet>>, i: nat, fmt: bool)
    requires i < |texts|
    ensures Joined(texts[i..], fmt) ==
            texts[i] + ((if i != |texts| - 1 then Separator(fmt) else []) + Joined(texts[i + 1..], fmt))
  {
    assert texts[i..][1..] == texts[i + 1..];
  }

  lemma NoneJoined(fmt: bool)
    ensures Joined([], fmt) == []
  {
  }

  /** Compose the text of an array from those of its entries. */
  method ComposeArray(entries: seq<seq<Octet>>, fmt: bool, len: nat) returns (out: array<Byte>)
    requires len == 5 + ItemSpace(entries, fmt)
    ensures fresh(out) && Holds(out, [OPEN_BRACKET] + Joined(entries, fmt) + [CLOSE_BRACKET])
  {
    hide Joined, ItemSpace, Separator;
    out := new Byte[len](_ => 0);
    ghost var all := [OPEN_BRACKET] + Joined(entries, fmt);
    JoinedFits(entries, fmt);
    var ptr: nat := Put(out, 0, [OPEN_BRACKET]);
    assert entries[0..] == entries;
    for i := 0 to |entries|
      invariant ptr <= out.Length && out[..ptr] + Joined(entries[i..], fmt) == all
    {
      JoinedStep(entries, i, fmt);
      ghost var done, tail := out[..ptr], Joined(entries[i + 1..], fmt);
      var sep := if i != |entries| - 1 then Separator(fmt) else [];
      assert |done + (entries[i] + (sep + tail))| == |all|;
      ptr := Put(out, ptr, entries[i]);
      ptr := Put(out, ptr, sep);
      assert done + (entries[i] + (sep + tail)) == done + entries[i] + sep + tail;
    }
    NoneJoined(fmt);
    assert entries[|entries|..] == [];
    assert out[..ptr] == all;
    ptr := Put(out, ptr, [CLOSE_BRACKET]);
    Finish(out, ptr, all + [CLOSE_BRACKET]);
  }

  lemma NoItemSpace(fmt: bool)
    ensures ItemSpace([], fmt) == 0
  {
  }

  /** print_array. */
  method PrintArray(v: JSON, depth: nat, fmt: bool) returns (out: array<Byte>)
    requires v.Array? && Printable(v)
    ensures fresh(out) && Holds(out, ValueText(v, depth, fmt))
    decreases v, 0
  {
    if v.items == [] {
      out := CopyOf([OPEN_BRACKET, CLOSE_BRACKET]);
      return;
    }
    hide ItemTexts, ItemSpace, Joined, Printable;
    var len := 5;
    var entries: seq<seq<Octet>> := [];
    ghost var texts := ItemTexts(v, depth, fmt);
    NoItemSpace(fmt);
    for i := 0 to |v.items|
      invariant entries == texts[..i] && len == 5 + ItemSpace(entries, fmt)
    {
      ItemTextAt(v, i, depth, fmt);
      var ret := PrintValue(v.items[i], depth + 1, fmt);
      var text := TextOf(ret, texts[i]);
      ItemSpaceSnoc(entries, text, fmt);
      entries := entries + [text];
      len := len + |text| + 2 + Extra(fmt);
    }
    assert entries == texts;
    out := ComposeArray(entries, fmt, len);
  }

  // ------------------------------------------------------------------ objects

  /** The space print_object reserves for a member at the depth of members. */
  function PairSpace(name: seq<Octet>, value: seq<Octet>, depth: nat, fmt: bool): nat {
    |value| + |name| + 2 + if fmt then 2 + depth else 0
  }

  function MemberSpace(pairs: seq<Pair>, depth: nat, fmt: bool): nat {
    if pairs == [] then 0
    else PairSpace(pairs[0].name, pairs[0].value, depth, fmt) + MemberSpace(pairs[1..], depth, fmt)
  }

  lemma {:induction false} MemberSpaceSnoc(pairs: seq<Pair>, pair: Pair, depth: nat, fmt: bool)
    ensures MemberSpace(pairs + [pair], depth, fmt) ==
            MemberSpace(pairs, depth, fmt) + PairSpace(pair.name, pair.value, depth, fmt)
  {
    if pairs != [] {
      MemberSpaceSnoc(pairs[1..], pair, depth, fmt);
      assert (pairs + [pair])[1..] == pairs[1..] + [pair];
    }
  }

  lemma {:induction false} TabsSize(n: int)
    ensures |Tabs(n)| == if n < 0 then 0 else n
    decreases n
  {
    if n > 0 {
      TabsSize(n - 1);
    }
  }

  lemma {:induction false} ListedFits(pairs: seq<Pair>, depth: nat, fmt: bool)
    ensures |Listed(pairs, depth, fmt)| <= MemberSpace(pairs, depth, fmt)
  {
    if pairs != [] {
      hide Tabs;
      TabsSize(depth);
      ListedFits(pairs[1..], depth, fmt);
    }
  }

  /** Write a run of tabs. */
  method PutTabs(out: array<Byte>, at: nat, count: int) returns (next: nat)
    requires at + |Tabs(count)| <= out.Length
    modifies out
    ensures next == at + |Tabs(count)| && out[..next] == old(out[..at]) + Tabs(count)
  {
    next := at;
    var j := 0;
    assert out[..next] + Tabs(count) == old(out[..at]) + Tabs(count);
    while j < count
      invariant (count < 0 && j == 0) || 0 <= j <= count
      invariant at <= next <= out.Length && out[..next] + Tabs(count - j) == old(out[..at]) + Tabs(count)
    {
      assert |out[..next] + Tabs(count - j)| == at + |Tabs(count)|;
      assert out[..next] + Tabs(count - j) == out[..next] + [TAB] + Tabs(count - j - 1);
      next := Put(out, next, [TAB]);
      j := j + 1;
    }
  }

  /** Write the name of a member and the colon after it. */
  method PutName(out: array<Byte>, at: nat, name: seq<Octet>, depth: nat, fmt: bool) returns (next: nat)
    requires at + |NameText(name, depth, fmt)| <= out.Length
    modifies out
    ensures next == at + |NameText(name, depth, fmt)|
    ensures out[..next] == old(out[..at]) + NameText(name, depth, fmt)
  {
    hide Tabs;
    next := at;
    if fmt {
      next := PutTabs(out, next, depth);
    }
    ghost var indent := if fmt then Tabs(depth) else [];
    assert out[..next] == old(out[..at]) + indent;
    next := Put(out, next, name);
    next := Put(out, next, if fmt then [COLON, TAB] else [COLON]);
  }

  /** Write one member. */
  method PutMember(out: array<Byte>, at: nat, pair: Pair, last: bool, depth: nat, fmt: bool) returns (next: nat)
    requires at + |MemberText(pair.name, pair.value, last, depth, fmt)| <= out.Length
    modifies out
    ensures next == at + |MemberText(pair.name, pair.value, last, depth, fmt)|
    ensures out[..next] == old(out[..at]) + MemberText(pair.name, pair.value, last, depth, fmt)
  {
    hide NameText;
    next := PutName(out, at, pair.name, depth, fmt);
    next := Put(out, next, pair.value);
    next := Put(out, next, AfterMember(last, fmt));
  }

  lemma ListedHead(pairs: seq<Pair>, i: nat, depth: int, fmt: bool)
    requires i < |pairs|
    ensures Listed(pairs[i..], depth, fmt) ==
            MemberText(pairs[i].name, pairs[i].value, i == |pairs| - 1, depth, fmt) + Listed(pairs[i + 1..], depth, fmt)
  {
    hide MemberText;
    assert pairs[i..][1..] == pairs[i + 1..];
  }

  lemma NoneListed(depth: int, fmt: bool)
    ensures Listed([], depth, fmt) == []
  {
  }

  /** Compose the text of an object, its members being at the given depth. */
  method ComposeObject(pairs: seq<Pair>, depth: nat, fmt: bool, len: nat) returns (out: array<Byte>)
    requires len == 7 + (if fmt then depth else 0) + MemberSpace(pairs, depth, fmt)
    ensures fresh(out)
    ensures Holds(out, [OPEN_BRACE] + (if fmt then [NEWLINE] else []) + Listed(pairs, depth, fmt) +
                       (if fmt then Tabs(depth - 1) else []) + [CLOSE_BRACE])
  {
    hide Listed, MemberSpace, Tabs, MemberText;
    out := new Byte[len](_ => 0);
    var open: seq<Octet> := [OPEN_BRACE] + (if fmt then [NEWLINE] else []);
    ghost var all := open + Listed(pairs, depth, fmt);
    ListedFits(pairs, depth, fmt);
    TabsSize(depth - 1);
    var ptr: nat := Put(out, 0, open);
    assert pairs[0..] == pairs;
    for i := 0 to |pairs|
      invariant ptr <= out.Length && out[..ptr] + Listed(pairs[i..], depth, fmt) == all
    {
      ListedHead(pairs, i, depth, fmt);
      ghost var text := MemberText(pairs[i].name, pairs[i].value, i == |pairs| - 1, depth, fmt);
      ghost var done, tail := out[..ptr], Listed(pairs[i + 1..], depth, fmt);
      assert |done + (text + tail)| == |all|;
      ptr := PutMember(out, ptr, pairs[i], i == |pairs| - 1, depth, fmt);
      assert done + (text + tail) == done + text + tail;
    }
    NoneListed(depth, fmt);
    assert pairs[|pairs|..] == [];
    assert out[..ptr] == all;
    if fmt {
      ptr := PutTabs(out, ptr, depth - 1);
    }
    ptr := Put(out, ptr, [CLOSE_BRACE]);
    Finish(out, ptr, all + (if fmt then Tabs(depth - 1) else []) + [CLOSE_BRACE]);
  }

  /** The text of an object without members. */
  method EmptyObject(depth: nat, fmt: bool) returns (out: array<Byte>)
    ensures fresh(out) && Holds(out, ValueText(Object([]), depth, fmt))
  {
    hide Tabs;
    TabsSize(depth - 1);
    out := new Byte[if fmt then depth + 4 else 3](_ => 0);
    var ptr: nat := Put(out, 0, [OPEN_BRACE]);
    if fmt {
      ptr := Put(out, ptr, [NEWLINE]);
      ptr := PutTabs(out, ptr, depth - 1);
    }
    ptr := Put(out, ptr, [CLOSE_BRACE]);
    Finish(out, ptr, ValueText(Object([]), depth, fmt));
  }

  lemma NoMemberSpace(depth: nat, fmt: bool)
    ensures MemberSpace([], depth, fmt) == 0
  {
  }

  /** The first part of print_object: the texts of all members, and the size
      of the output. */
  method PrintMembers(v: JSON, depth: nat, fmt: bool) returns (pairs: seq<Pair>, len: nat)
    requires v.Object? && Printable(v)
    ensures pairs == MemberTexts(v, depth, fmt)
    ensures len == 7 + (if fmt then depth + 1 else 0) + MemberSpace(pairs, depth + 1, fmt)
    decreases v, 0, 0
  {
    hide ValueText, MemberTexts, MemberSpace, PairSpace, Printable, StringText;
    len := 7 + if fmt then depth + 1 else 0;
    pairs := [];
    ghost var texts := MemberTexts(v, depth, fmt);
    NoMemberSpace(depth + 1, fmt);
    for i := 0 to |v.members|
      invariant pairs == texts[..i] && len == 7 + (if fmt then depth + 1 else 0) + MemberSpace(pairs, depth + 1, fmt)
    {
      MemberTextAt(v, i, depth, fmt);
      var str := PrintString(v.members[i].name);
      var ret := PrintValue(v.members[i].value, depth + 1, fmt);
      var name := TextOf(str, texts[i].name);
      var value := TextOf(ret, texts[i].value);
      MemberSpaceSnoc(pairs, Pair(name, value), depth + 1, fmt);
      pairs := pairs + [Pair(name, value)];
      len := len + PairSpace(name, value, depth + 1, fmt);
    }
  }

  lemma ObjectText(v: JSON, depth: nat, fmt: bool)
    requires v.Object? && Printable(v) && v.members != []
    ensures ValueText(v, depth, fmt) ==
            [OPEN_BRACE] + (if fmt then [NEWLINE] else []) + Listed(MemberTexts(v, depth, fmt), depth + 1, fmt) +
            (if fmt then Tabs(depth) else []) + [CLOSE_BRACE]
  {
    hide Listed, Tabs, MemberTexts;
  }

  /** print_object. */
  method PrintObject(v: JSON, depth: nat, fmt: bool) returns (out: array<Byte>)
    requires v.Object? && Printable(v)
    ensures fresh(out) && Holds(out, ValueText(v, depth, fmt))
    decreases v, 0, 1
  {
    hide ValueText, MemberTexts, MemberSpace, Listed, Printable, Tabs;
    if v.members == [] {
      out := EmptyObject(depth, fmt);
      return;
    }
    ObjectText(v, depth, fmt);
    var pairs, len := PrintMembers(v, depth, fmt);
    out := ComposeObject(pairs, depth + 1, fmt, len);
  }

  /** print_value: the C string of any printable tree. */
  method PrintValue(v: JSON, depth: nat, fmt: bool) returns (out: array<Byte>)
    requires Printable(v)
    ensures fresh(out) && Holds(out, ValueText(v, depth, fmt))
    decreases v, 1
  {
    hide StringText, NumberText, ItemTexts, MemberTexts;
    match v
    case Null => out := CopyOf(NULL_WORD);
    case False => out := CopyOf(FALSE_WORD);
    case True => out := CopyOf(TRUE_WORD);
    case Number(value) => out := PrintNumber(value);
    case String(text) => out := PrintString(text);
    case Array(_) => out := PrintArray(v, depth, fmt);
    case Object(_) => out := PrintObject(v, depth, fmt);
  }
}
