/** The language of src/libguac/parser.c: exactly which bytes are an instruction. */
module Grammar {
  import opened Basics
  import opened Unicode
  import opened Parser
  import opened Protocol

  /** The number of digits a text begins with. */
  function LeadingDigits(text: seq<Byte>): (k: nat)
    ensures k <= |text| && forall i :: 0 <= i < k ==> ZERO <= text[i] <= NINE
    ensures k < |text| ==> !(ZERO <= text[k] <= NINE)
  {
    if text != [] && ZERO <= text[0] <= NINE then 1 + LeadingDigits(text[1..]) else 0
  }

  /** The number that digits continue; no digits at all stand for zero. */
  function Number(n: nat, digits: seq<Byte>): nat
    requires forall i :: 0 <= i < |digits| ==> ZERO <= digits[i] <= NINE
    decreases |digits|
  {
    if digits == [] then n else Number(10 * n + (digits[0] - ZERO), digits[1..])
  }

  /** Digits, a period, and as many whole characters as they say; then a semicolon, or a
      comma and further elements. */
  predicate Spells(n: nat, text: seq<Byte>, elements: seq<seq<Byte>>)
    decreases |elements|, 0
  {
    var k := LeadingDigits(text);
    && k < |text| && text[k] == DOT && elements != []
    && Number(n, text[..k]) <= MAX_LENGTH
    && SpellsContent(Number(n, text[..k]), text[k + 1..], elements[0], elements[1..])
  }

  predicate SpellsContent(count: nat, text: seq<Byte>, element: seq<Byte>, more: seq<seq<Byte>>)
    decreases |more|, 2
  {
    && CharCount(element) == count && EndsOnBoundary(element) && element <= text
    && SpellsRest(text[|element|..], more)
  }

  predicate SpellsRest(text: seq<Byte>, more: seq<seq<Byte>>)
    decreases |more|, 1
  {
    if more == [] then text == [SEMICOLON]
    else text != [] && text[0] == COMMA && Spells(0, text[1..], more)
  }

  // ---------------------------------------------------- what is parsed is spelled

  lemma DigitAhead(n: nat, c: Byte, text: seq<Byte>, elements: seq<seq<Byte>>)
    requires ZERO <= c <= NINE && Spells(10 * n + (c - ZERO), text, elements)
    ensures Spells(n, [c] + text, elements)
  {
    var k := LeadingDigits(text);
    var longer := [c] + text;
    assert longer[1..] == text;
    assert longer[..k + 1] == [c] + text[..k] && longer[..k + 1][1..] == text[..k];
    assert longer[k + 1 + 1..] == text[k + 1..];
  }

  lemma PeriodAhead(n: nat, text: seq<Byte>, elements: seq<seq<Byte>>)
    requires elements != [] && n <= MAX_LENGTH && SpellsContent(n, text, elements[0], elements[1..])
    ensures Spells(n, [DOT] + text, elements)
  {
    var longer := [DOT] + text;
    assert LeadingDigits(longer) == 0 && longer[..0] == [] && longer[1..] == text;
  }

  lemma CharacterAhead(count: nat, char1: seq<Byte>, text: seq<Byte>, element: seq<Byte>, more: seq<seq<Byte>>)
    requires char1 != [] && |char1| == CharSize(char1[0]) && SpellsContent(count, text, element, more)
    ensures SpellsContent(count + 1, char1 + text, char1 + element, more)
  {
    hide CharSize, SpellsRest;
    var longer := char1 + element;
    assert longer[|char1|..] == element && longer[0] == char1[0];
    assert (char1 + text)[|longer|..] == text[|element|..];
  }

  lemma CommaAhead(text: seq<Byte>, more: seq<seq<Byte>>)
    requires more != [] && Spells(0, text, more)
    ensures SpellsContent(0, [COMMA] + text, [], more)
  {
    hide Spells;
    var longer := [COMMA] + text;
    assert longer[1..] == text && longer[0..] == longer;
  }

  /** The outcome is that of an instruction, or of the rest of one from this state on, at
      the front of the text. */
  predicate IsSpelled(st: State, s: seq<Byte>, o: Outcome) {
    && o.Done? && o.used <= |s| && st.done <= o.elements && |st.done| < |o.elements| <= MAX_ELEMENTS
    && var text, more := s[..o.used], o.elements[|st.done|..];
       if st.phase.Length? then Spells(st.left, text, more)
       else st.cur <= more[0] && SpellsContent(st.left, text, more[0][|st.cur|..], more[1..])
  }

  lemma Prefixed(s: seq<Byte>, n: nat, used: nat)
    requires n <= |s| && used <= |s| - n
    ensures s[..n + used] == s[..n] + s[n..][..used]
  {
  }

  lemma FinishIsSpelled(st: State, s: seq<Byte>)
    requires st.phase.Content? && |st.done| < MAX_ELEMENTS && Next(st, s) == Finish
    ensures IsSpelled(st, s, Done(st.done + [st.cur], 1))
  {
    var more := (st.done + [st.cur])[|st.done|..];
    assert more == [st.cur] && s[..1] == [SEMICOLON] && st.cur[|st.cur|..] == [] && s[..1][0..] == [SEMICOLON];
  }

  lemma DigitIsSpelled(st: State, s: seq<Byte>, rest: Outcome)
    requires st.phase.Length? && Next(st, s).Take? && s[0] != DOT && IsSpelled(Next(st, s).state, s[1..], rest)
    ensures IsSpelled(st, s, Shift(1, rest))
  {
    hide Spells, SpellsContent;
    Prefixed(s, 1, rest.used);
    assert s[..1] == [s[0]];
    DigitAhead(st.left, s[0], s[1..][..rest.used], rest.elements[|st.done|..]);
  }

  lemma PeriodIsSpelled(st: State, s: seq<Byte>, rest: Outcome)
    requires st.phase.Length? && Next(st, s).Take? && s[0] == DOT && st.left <= MAX_LENGTH
    requires IsSpelled(Next(st, s).state, s[1..], rest)
    ensures IsSpelled(st, s, Shift(1, rest))
  {
    hide Spells, SpellsContent;
    Prefixed(s, 1, rest.used);
    var more := rest.elements[|st.done|..];
    assert s[..1] == [DOT] && more[0][0..] == more[0];
    PeriodAhead(st.left, s[1..][..rest.used], more);
  }

  lemma CharacterIsSpelled(st: State, s: seq<Byte>, rest: Outcome)
    requires st.phase.Content? && st.left > 0 && Next(st, s).Take?
    requires IsSpelled(Next(st, s).state, s[Next(st, s).size..], rest)
    ensures IsSpelled(st, s, Shift(Next(st, s).size, rest))
  {
    hide Spells, SpellsContent, CharSize;
    var n := CharSize(s[0]);
    var char1, more := s[..n], rest.elements[|st.done|..];
    Prefixed(s, n, rest.used);
    CharacterAhead(st.left - 1, char1, s[n..][..rest.used], more[0][|st.cur + char1|..], more[1..]);
    assert more[0][|st.cur|..] == char1 + more[0][|st.cur + char1|..];
  }

  lemma CommaIsSpelled(st: State, s: seq<Byte>, rest: Outcome)
    requires st.phase.Content? && st.left == 0 && Next(st, s).Take?
    requires IsSpelled(Next(st, s).state, s[1..], rest)
    ensures IsSpelled(st, s, Shift(1, rest))
  {
    hide Spells, SpellsContent;
    Prefixed(s, 1, rest.used);
    var more := rest.elements[|st.done|..];
    assert more[0] == st.cur && more[1..] == rest.elements[|st.done + [st.cur]|..];
    assert st.cur[|st.cur|..] == [] && s[..1] == [COMMA];
    CommaAhead(s[1..][..rest.used], more[1..]);
  }

  /** A finished parse has read an instruction, from wherever it began. */
  lemma {:induction false} ParsedIsSpelled(st: State, s: seq<Byte>)
    requires Parse(st, s).Done? && st.left <= MAX_LENGTH && (st.phase.Content? ==> |st.done| < MAX_ELEMENTS)
    ensures IsSpelled(st, s, Parse(st, s))
    decreases |s|
  {
    hide IsSpelled;
    var m := Next(st, s);
    if m.Finish? {
      FinishIsSpelled(st, s);
    } else {
      ParsedIsSpelled(m.state, s[m.size..]);
      var rest := Parse(m.state, s[m.size..]);
      if st.phase.Content? {
        if st.left > 0 {
          CharacterIsSpelled(st, s, rest);
        } else {
          CommaIsSpelled(st, s, rest);
        }
      } else if s[0] == DOT {
        PeriodIsSpelled(st, s, rest);
      } else {
        DigitIsSpelled(st, s, rest);
      }
    }
  }

  // ---------------------------------------------------- what is spelled is parsed

  lemma {:induction false} NumberGrows(n: nat, digits: seq<Byte>)
    requires forall i :: 0 <= i < |digits| ==> ZERO <= digits[i] <= NINE
    ensures n <= Number(n, digits)
    decreases |digits|
  {
    if digits != [] {
      NumberGrows(10 * n + (digits[0] - ZERO), digits[1..]);
    }
  }

  lemma {:induction false} DigitsConsumed(done: seq<seq<Byte>>, n: nat, digits: seq<Byte>)
    requires |done| < MAX_ELEMENTS && forall i :: 0 <= i < |digits| ==> ZERO <= digits[i] <= NINE
    requires Number(n, digits) <= MAX_LENGTH
    ensures Consumes(State(Length, done, [], n), digits, State(Length, done, [], Number(n, digits)))
    decreases |digits|
  {
    hide Parse, Consumes;
    var st := State(Length, done, [], n);
    ConsumesNothing(st);
    if digits != [] {
      var n' := 10 * n + (digits[0] - ZERO);
      NumberGrows(n', digits[1..]);
      ExtendParse(st, [], st, [digits[0]]);
      assert [] + [digits[0]] == [digits[0]];
      DigitsConsumed(done, n', digits[1..]);
      ChainParse(st, [digits[0]], State(Length, done, [], n'), digits[1..],
                 State(Length, done, [], Number(n, digits)), []);
      assert [digits[0]] + digits[1..] == digits;
    }
  }

  lemma PeriodConsumed(done: seq<seq<Byte>>, n: nat, digits: seq<Byte>)
    requires |done| < MAX_ELEMENTS && forall i :: 0 <= i < |digits| ==> ZERO <= digits[i] <= NINE
    requires Number(n, digits) <= MAX_LENGTH
    ensures Consumes(State(Length, done, [], n), digits + [DOT], State(Content, done, [], Number(n, digits)))
  {
    hide Parse, Consumes, Number;
    DigitsConsumed(done, n, digits);
    ExtendParse(State(Length, done, [], n), digits, State(Length, done, [], Number(n, digits)), [DOT]);
  }

  /** Digits that continue to the number of characters of the element, and a period. */
  predicate IsHeader(n: nat, head: seq<Byte>, e: seq<Byte>) {
    && head != [] && head[|head| - 1] == DOT
    && (forall i :: 0 <= i < |head| - 1 ==> ZERO <= head[i] <= NINE)
    && Number(n, head[..|head| - 1]) == CharCount(e) <= MAX_LENGTH
  }

  /** The digits and period, and what follows the first element. */
  lemma SpelledParts(n: nat, text: seq<Byte>, elements: seq<seq<Byte>>) returns (head: seq<Byte>, rest: seq<Byte>)
    requires Spells(n, text, elements)
    ensures elements != [] && text == head + elements[0] + rest && SpellsRest(rest, elements[1..])
    ensures IsHeader(n, head, elements[0]) && EndsOnBoundary(elements[0])
  {
    hide SpellsRest, CharCount, EndsOnBoundary, Number;
    var k := LeadingDigits(text);
    head, rest := text[..k + 1], text[k + 1..][|elements[0]|..];
    assert head == text[..k] + [DOT] && head[..k] == text[..k];
  }

  lemma FirstConsumed(done: seq<seq<Byte>>, n: nat, head: seq<Byte>, e: seq<Byte>)
    requires |done| < MAX_ELEMENTS && IsHeader(n, head, e) && EndsOnBoundary(e)
    ensures Consumes(State(Length, done, [], n), head + e, State(Content, done, e, 0))
  {
    hide Parse, Consumes, CharCount, EndsOnBoundary, Number;
    var k := |head| - 1;
    PeriodConsumed(done, n, head[..k]);
    assert head == head[..k] + [DOT];
    ContentConsumed(done, [], e, 0);
    assert [] + e == e;
    ChainParse(State(Length, done, [], n), head, State(Content, done, [], CharCount(e)), e, State(Content, done, e, 0), []);
  }

  lemma {:induction false} RestIsParsed(done: seq<seq<Byte>>, cur: seq<Byte>, text: seq<Byte>, more: seq<seq<Byte>>)
    requires SpellsRest(text, more) && |done| + 1 + |more| <= MAX_ELEMENTS
    ensures Completes(State(Content, done, cur, 0), text, done + [cur] + more)
    decreases |more|, 1
  {
    hide Parse, Consumes, Completes, Spells;
    var st := State(Content, done, cur, 0);
    ConsumesNothing(st);
    if more == [] {
      ExtendParse(st, [], st, [SEMICOLON]);
      assert [] + [SEMICOLON] == text;
      assert done + [cur] + more == done + [cur];
    } else {
      ExtendParse(st, [], st, [COMMA]);
      assert [] + [COMMA] == [COMMA];
      SpelledIsParsed(done + [cur], 0, text[1..], more);
      ChainParse(st, [COMMA], State(Length, done + [cur], [], 0), text[1..], st, done + [cur] + more);
      assert [COMMA] + text[1..] == text;
    }
  }

  lemma {:induction false} SpelledIsParsed(done: seq<seq<Byte>>, n: nat, text: seq<Byte>, elements: seq<seq<Byte>>)
    requires Spells(n, text, elements) && |done| + |elements| <= MAX_ELEMENTS
    ensures Completes(State(Length, done, [], n), text, done + elements)
    decreases |elements|, 0
  {
    hide Parse, Consumes, Completes, Spells, SpellsRest, CharCount, EndsOnBoundary;
    var head, rest := SpelledParts(n, text, elements);
    var e, more := elements[0], elements[1..];
    FirstConsumed(done, n, head, e);
    RestIsParsed(done, e, rest, more);
    ChainParse(State(Length, done, [], n), head + e, State(Content, done, e, 0), rest, INIT, done + [e] + more);
    assert done + [e] + more == done + elements;
  }

  /** The parser accepts exactly the instructions: at the front of a stream it reads these
      elements, using so many bytes, if and only if those bytes spell them. */
  lemma ParsesIffSpelled(s: seq<Byte>, elements: seq<seq<Byte>>, used: nat)
    requires used <= |s|
    ensures Parse(INIT, s) == Done(elements, used) <==>
            1 <= |elements| <= MAX_ELEMENTS && Spells(0, s[..used], elements)
  {
    hide Parse, Spells, SpellsContent;
    if Parse(INIT, s) == Done(elements, used) {
      ParsedIsSpelled(INIT, s);
      assert elements[0..] == elements;
    }
    if 1 <= |elements| <= MAX_ELEMENTS && Spells(0, s[..used], elements) {
      SpelledIsParsed([], 0, s[..used], elements);
      assert [] + elements == elements && s[..used] + s[used..] == s;
    }
  }
}
