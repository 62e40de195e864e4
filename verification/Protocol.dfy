/** Writing instructions (src/libguac/protocol.c, socket.c) and the agreement
    between writer and parser. */
module Protocol {
  import opened Basics
  import opened Unicode
  import opened Parser

  /** __guac_socket_write_length_string: character count, period, bytes. */
  function Element(e: seq<Byte>): seq<Byte> {
    Decimal(CharCount(e)) + [DOT] + e
  }

  /** An instruction from its second element on. */
  function Rest(elements: seq<seq<Byte>>): seq<Byte> {
    if elements == [] then [SEMICOLON] else [COMMA] + Element(elements[0]) + Rest(elements[1..])
  }

  function Instruction(elements: seq<seq<Byte>>): seq<Byte>
    requires elements != []
  {
    Element(elements[0]) + Rest(elements[1..])
  }

  lemma {:induction false} DecimalConsumed(done: seq<seq<Byte>>, n: nat)
    requires |done| < MAX_ELEMENTS && n <= MAX_LENGTH
    ensures Consumes(State(Length, done, [], 0), Decimal(n), State(Length, done, [], n))
  {
    hide Parse, Consumes;
    var st := State(Length, done, [], 0);
    if n < 10 {
      ConsumesNothing(st);
      ExtendParse(st, [], st, [ZERO + n]);
      assert [] + [ZERO + n] == Decimal(n);
    } else {
      DecimalConsumed(done, n / 10);
      ExtendParse(st, Decimal(n / 10), State(Length, done, [], n / 10), [ZERO + n % 10]);
    }
  }

  /** One whole character of content. */
  lemma CharacterConsumed(done: seq<seq<Byte>>, cur: seq<Byte>, char1: seq<Byte>, left: nat)
    requires char1 != [] && |char1| == CharSize(char1[0])
    ensures Consumes(State(Content, done, cur, left + 1), char1, State(Content, done, cur + char1, left))
  {
    hide Parse, Consumes;
    var st := State(Content, done, cur, left + 1);
    ConsumesNothing(st);
    assert char1[..|char1|] == char1 && [] + char1 == char1;
    ExtendParse(st, [], st, char1);
  }

  lemma SplitContent(cur: seq<Byte>, e: seq<Byte>, n: nat)
    requires n <= |e|
    ensures e[..n] + e[n..] == e && cur + e[..n] + e[n..] == cur + e
  {
  }

  /** Reading content that ends on a character boundary uses up exactly the
      characters it was counted to have. */
  lemma {:induction false} ContentConsumed(done: seq<seq<Byte>>, cur: seq<Byte>, e: seq<Byte>, more: nat)
    requires EndsOnBoundary(e)
    ensures Consumes(State(Content, done, cur, CharCount(e) + more), e, State(Content, done, cur + e, more))
    decreases |e|
  {
    hide Parse, Consumes, CharSize;
    var st := State(Content, done, cur, CharCount(e) + more);
    if e == [] {
      ConsumesNothing(st);
      assert cur + e == cur;
    } else {
      var size := CharSize(e[0]);
      var head, tail := e[..size], e[size..];
      SplitContent(cur, e, size);
      CharacterConsumed(done, cur, head, CharCount(tail) + more);
      ContentConsumed(done, cur + head, tail, more);
      ChainParse(st, head, State(Content, done, cur + head, CharCount(tail) + more), tail,
                 State(Content, done, cur + e, more), []);
    }
  }

  lemma HeaderConsumed(done: seq<seq<Byte>>, e: seq<Byte>)
    requires |done| < MAX_ELEMENTS && CharCount(e) <= MAX_LENGTH
    ensures Consumes(State(Length, done, [], 0), Decimal(CharCount(e)) + [DOT], State(Content, done, [], CharCount(e)))
  {
    hide Parse, Consumes, Decimal;
    DecimalConsumed(done, CharCount(e));
    ExtendParse(State(Length, done, [], 0), Decimal(CharCount(e)), State(Length, done, [], CharCount(e)), [DOT]);
  }

  lemma ElementConsumed(done: seq<seq<Byte>>, e: seq<Byte>)
    requires |done| < MAX_ELEMENTS && CharCount(e) <= MAX_LENGTH && EndsOnBoundary(e)
    ensures Consumes(State(Length, done, [], 0), Element(e), State(Content, done, e, 0))
  {
    hide Parse, Consumes, Decimal;
    HeaderConsumed(done, e);
    ContentConsumed(done, [], e, 0);
    assert [] + e == e;
    ChainParse(State(Length, done, [], 0), Decimal(CharCount(e)) + [DOT], State(Content, done, [], CharCount(e)),
               e, State(Content, done, e, 0), []);
  }

  /** An element the parser can take: the length prefix is in range and the
      bytes end where a character ends. */
  predicate Writable(e: seq<Byte>) {
    CharCount(e) <= MAX_LENGTH && EndsOnBoundary(e)
  }

  lemma {:induction false} RestCompletes(done: seq<seq<Byte>>, cur: seq<Byte>, more: seq<seq<Byte>>)
    requires |done| + 1 + |more| <= MAX_ELEMENTS
    requires forall i :: 0 <= i < |more| ==> Writable(more[i])
    ensures Completes(State(Content, done, cur, 0), Rest(more), done + [cur] + more)
    decreases |more|
  {
    hide Parse, Consumes, Completes, CharCount, EndsOnBoundary;
    var st := State(Content, done, cur, 0);
    ConsumesNothing(st);
    if more == [] {
      ExtendParse(st, [], st, [SEMICOLON]);
      assert [] + [SEMICOLON] == Rest(more);
      assert done + [cur] + more == done + [cur];
    } else {
      var done' := done + [cur];
      var mid := State(Length, done', [], 0);
      ExtendParse(st, [], st, [COMMA]);
      assert [] + [COMMA] == [COMMA];
      ElementConsumed(done', more[0]);
      var after := State(Content, done', more[0], 0);
      ChainParse(st, [COMMA], mid, Element(more[0]), after, []);
      RestCompletes(done', more[0], more[1..]);
      assert done' + [more[0]] + more[1..] == done + [cur] + more;
      ChainParse(st, [COMMA] + Element(more[0]), after, Rest(more[1..]), after, done + [cur] + more);
    }
  }

  /** Writer and parser agree: what is written parses to exactly the elements
      written, and ends exactly where it was written to end. */
  lemma InstructionParses(elements: seq<seq<Byte>>, t: seq<Byte>)
    requires 1 <= |elements| <= MAX_ELEMENTS
    requires forall i :: 0 <= i < |elements| ==> Writable(elements[i])
    ensures Parse(INIT, Instruction(elements) + t) == Done(elements, |Instruction(elements)|)
  {
    hide Parse, Consumes, CharCount, EndsOnBoundary;
    var e, more := elements[0], elements[1..];
    ElementConsumed([], e);
    RestCompletes([], e, more);
    assert [] + [e] + more == elements;
    ChainParse(INIT, Element(e), State(Content, [], e, 0), Rest(more), INIT, elements);
    assert Completes(INIT, Instruction(elements), elements);
  }

  /** An instruction as the protocol has it: before each element the number of its
      characters, which are its bytes other than continuation bytes. */
  function Written(elements: seq<seq<Byte>>): seq<Byte>
    requires elements != []
  {
    var e := elements[0];
    Decimal(LeadBytes(e)) + [DOT] + e + if |elements| == 1 then [SEMICOLON] else [COMMA] + Written(elements[1..])
  }

  lemma {:induction false} InstructionIsWritten(elements: seq<seq<Byte>>)
    requires elements != [] && forall i :: 0 <= i < |elements| ==> WellFormed(elements[i])
    ensures Instruction(elements) == Written(elements)
    decreases |elements|
  {
    hide Decimal, CharCount, LeadBytes, WellFormed, EndsOnBoundary;
    WellFormedIsCounted(elements[0]);
    if |elements| > 1 {
      InstructionIsWritten(elements[1..]);
    }
  }

  /** Writer and parser agree on all well-formed UTF-8. */
  lemma WellFormedParses(elements: seq<seq<Byte>>, t: seq<Byte>)
    requires 1 <= |elements| <= MAX_ELEMENTS
    requires forall i :: 0 <= i < |elements| ==> WellFormed(elements[i]) && LeadBytes(elements[i]) <= MAX_LENGTH
    ensures Instruction(elements) == Written(elements)
    ensures Parse(INIT, Written(elements) + t) == Done(elements, |Written(elements)|)
  {
    hide Parse, Instruction, Written, CharCount, LeadBytes, WellFormed, EndsOnBoundary;
    InstructionIsWritten(elements);
    forall i | 0 <= i < |elements| ensures Writable(elements[i]) {
      WellFormedIsCounted(elements[i]);
    }
    InstructionParses(elements, t);
  }

  // ------------------------------------------------- elements cut inside a character

  /** A finished parse keeps what it had read. */
  lemma {:induction false} CurrentGrows(st: State, s: seq<Byte>)
    requires Parse(st, s).Done?
    ensures var els := Parse(st, s).elements;
            |els| > |st.done| && (st.phase.Content? ==> |els[|st.done|]| >= |st.cur|)
    ensures st.done <= Parse(st, s).elements
    decreases |s|
  {
    var m := Next(st, s);
    if m.Take? {
      CurrentGrows(m.state, s[m.size..]);
      if st.phase.Content? && st.left == 0 {
        assert m.state.done[|st.done|] == st.cur;
        assert st.done <= m.state.done;
      }
    }
  }

  /** Content cut inside a character makes the parser read on past its end. */
  lemma {:induction false} CutContentOverreads(done: seq<seq<Byte>>, cur: seq<Byte>, e: seq<Byte>, r: seq<Byte>)
    requires !EndsOnBoundary(e)
    requires Parse(State(Content, done, cur, CharCount(e)), e + r).Done?
    ensures var els := Parse(State(Content, done, cur, CharCount(e)), e + r).elements;
            |els| > |done| && |els[|done|]| > |cur| + |e|
    decreases |e|
  {
    var st := State(Content, done, cur, CharCount(e));
    var size := CharSize(e[0]);
    var m := Next(st, e + r);
    assert (e + r)[0] == e[0];
    assert m.Take? && m.size == size;
    if size <= |e| {
      var tail := e[size..];
      CutAppended(e, r, size);
      assert m.state == State(Content, done, cur + e[..size], CharCount(tail));
      CutContentOverreads(done, cur + e[..size], tail, r);
    } else {
      CurrentGrows(m.state, (e + r)[size..]);
    }
  }

  lemma CutElementNotReturned(done: seq<seq<Byte>>, e: seq<Byte>, r: seq<Byte>, more: seq<seq<Byte>>, used: nat)
    requires |done| < MAX_ELEMENTS && CharCount(e) <= MAX_LENGTH && !EndsOnBoundary(e)
    ensures Parse(State(Length, done, [], 0), Element(e) + r) != Done(done + [e] + more, used)
  {
    hide Next, Parse, CharCount, EndsOnBoundary;
    HeaderConsumed(done, e);
    assert Element(e) + r == (Decimal(CharCount(e)) + [DOT]) + (e + r);
    var o := Parse(State(Content, done, [], CharCount(e)), e + r);
    if o.Done? {
      CutContentOverreads(done, [], e, r);
      assert (done + [e] + more)[|done|] == e;
    }
  }

  lemma ConsumesApply(a: State, bytes: seq<Byte>, b: State, t: seq<Byte>)
    requires Consumes(a, bytes, b)
    ensures Parse(a, bytes + t) == Shift(|bytes|, Parse(b, t))
  {
  }

  lemma {:induction false} CutRestNotReturned(done: seq<seq<Byte>>, cur: seq<Byte>, more: seq<seq<Byte>>, t: seq<Byte>, used: nat)
    requires |done| + 1 + |more| <= MAX_ELEMENTS
    requires forall i :: 0 <= i < |more| ==> CharCount(more[i]) <= MAX_LENGTH
    requires exists i :: 0 <= i < |more| && !EndsOnBoundary(more[i])
    ensures Parse(State(Content, done, cur, 0), Rest(more) + t) != Done(done + [cur] + more, used)
    decreases |more|
  {
    hide Parse, CharCount, EndsOnBoundary, Element, Consumes;
    var st, done' := State(Content, done, cur, 0), done + [cur];
    var mid := State(Length, done', [], 0);
    var r := Rest(more[1..]) + t;
    ConsumesNothing(st);
    ExtendParse(st, [], st, [COMMA]);
    assert [] + [COMMA] == [COMMA];
    assert Rest(more) + t == [COMMA] + (Element(more[0]) + r);
    assert done + [cur] + more == done' + [more[0]] + more[1..];
    ConsumesApply(st, [COMMA], mid, Element(more[0]) + r);
    if !EndsOnBoundary(more[0]) {
      if used >= 1 { CutElementNotReturned(done', more[0], r, more[1..], used - 1); }
    } else {
      ElementConsumed(done', more[0]);
      var after, size := State(Content, done', more[0], 0), |Element(more[0])|;
      ConsumesApply(mid, Element(more[0]), after, r);
      if used >= 1 + size { CutRestNotReturned(done', more[0], more[1..], t, used - 1 - size); }
    }
  }

  /** Writer and parser agree on an instruction exactly when every element ends
      on a character boundary. */
  lemma WriterAndParserAgree(elements: seq<seq<Byte>>, t: seq<Byte>)
    requires 1 <= |elements| <= MAX_ELEMENTS
    requires forall i :: 0 <= i < |elements| ==> CharCount(elements[i]) <= MAX_LENGTH
    ensures Parse(INIT, Instruction(elements) + t) == Done(elements, |Instruction(elements)|) <==>
            forall i :: 0 <= i < |elements| ==> EndsOnBoundary(elements[i])
  {
    hide Parse, CharCount, EndsOnBoundary, Element, Consumes;
    if forall i :: 0 <= i < |elements| ==> EndsOnBoundary(elements[i]) {
      InstructionParses(elements, t);
    } else {
      var e, more, used := elements[0], elements[1..], |Instruction(elements)|;
      var r := Rest(more) + t;
      assert Instruction(elements) + t == Element(e) + r;
      assert [] + [e] + more == elements;
      if !EndsOnBoundary(e) {
        CutElementNotReturned([], e, r, more, used);
      } else {
        ElementConsumed([], e);
        ConsumesApply(INIT, Element(e), State(Content, [], e, 0), r);
        var i :| 0 <= i < |elements| && !EndsOnBoundary(elements[i]);
        assert more[i - 1] == elements[i];
        CutRestNotReturned([], e, more, t, used - |Element(e)|);
      }
    }
  }
}
