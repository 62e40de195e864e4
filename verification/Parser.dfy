/** The incremental instruction parser of src/libguac/parser.c. */
module Parser {
  import opened Basics
  import opened Unicode

  const MAX_ELEMENTS: nat := 128
  const MAX_LENGTH: nat := 8192

  /** The size of the buffer guac_parser_read parses in. */
  const BUFFER_SIZE: nat := 32768

  const DOT: Byte := 46
  const COMMA: Byte := 44
  const SEMICOLON: Byte := 59
  // ---------------------------------------------------------------- grammar

  datatype Phase = Length | Content

  /** Where a parse stands: the finished elements, the bytes of the current
      element so far, and either the length prefix read so far or the number of
      characters still to come. */
  datatype State = State(phase: Phase, done: seq<seq<Byte>>, cur: seq<Byte>, left: nat)

  const INIT := State(Length, [], [], 0)

  datatype Outcome =
    | NeedMore(state: State, used: nat)
    | Done(elements: seq<seq<Byte>>, used: nat)
    | Fail

  function Shift(n: nat, o: Outcome): Outcome {
    match o
    case NeedMore(state, used) => NeedMore(state, n + used)
    case Done(elements, used) => Done(elements, n + used)
    case Fail => Fail
  }

  /** One move of the parser: take a digit, a period, a whole character or an
      element terminator from the front of the available bytes. */
  datatype Move = Wait | Reject | Finish | Take(state: State, size: nat)

  function Next(st: State, s: seq<Byte>): (m: Move)
    ensures m.Take? ==> 1 <= m.size <= |s|
    ensures m.Finish? ==> |s| >= 1
  {
    if st.phase.Length? then
      if |st.done| >= MAX_ELEMENTS then Reject
      else if s == [] then Wait
      else if ZERO <= s[0] <= NINE then
        var n := st.left * 10 + (s[0] - ZERO);
        if n > MAX_LENGTH then Reject else Take(st.(left := n), 1)
      else if s[0] == DOT then Take(State(Content, st.done, [], st.left), 1)
      else Reject
    else if s == [] || CharSize(s[0]) > |s| then Wait
    else if st.left > 0 then
      var size := CharSize(s[0]);
      Take(State(Content, st.done, st.cur + s[..size], st.left - 1), size)
    else if s[0] == SEMICOLON then Finish
    else if s[0] == COMMA then Take(State(Length, st.done + [st.cur], [], 0), 1)
    else Reject
  }

  /** What a byte string parses to, read from its beginning in one go. */
  function Parse(st: State, s: seq<Byte>): Outcome
    decreases |s|
  {
    match Next(st, s)
    case Wait => NeedMore(st, 0)
    case Reject => Fail
    case Finish => Done(st.done + [st.cur], 1)
    case Take(st', size) => Shift(size, Parse(st', s[size..]))
  }

  /** A move already possible is not affected by more bytes arriving. */
  lemma NextIsStable(st: State, s: seq<Byte>, t: seq<Byte>)
    ensures !Next(st, s).Wait? ==> Next(st, s + t) == Next(st, s)
  {
    if s != [] && CharSize(s[0]) <= |s| {
      assert (s + t)[..CharSize(s[0])] == s[..CharSize(s[0])];
    }
  }

  lemma CutAppended<T>(s: seq<T>, t: seq<T>, n: nat)
    requires n <= |s|
    ensures (s + t)[..n] == s[..n] && (s + t)[n..] == s[n..] + t
  {
  }

  lemma ParseMoves(st: State, s: seq<Byte>)
    ensures var m := Next(st, s);
            Parse(st, s) == if m.Wait? then NeedMore(st, 0)
                            else if m.Reject? then Fail
                            else if m.Finish? then Done(st.done + [st.cur], 1)
                            else Shift(m.size, Parse(m.state, s[m.size..]))
  {
  }

  /** Parsing resumes: what a prefix left over is parsed together with what
      follows it, and a finished parse is not affected by what follows. */
  lemma {:induction false} ParseResumes(st: State, s: seq<Byte>, t: seq<Byte>)
    ensures var o := Parse(st, s);
            if o.NeedMore? then o.used <= |s| && Parse(st, s + t) == Shift(o.used, Parse(o.state, s[o.used..] + t))
            else Parse(st, s + t) == o
    decreases |s|
  {
    hide Next, Parse;
    NextIsStable(st, s, t);
    ParseMoves(st, s);
    ParseMoves(st, s + t);
    match Next(st, s)
    case Wait => assert s[0..] + t == s + t;
    case Take(st', size) =>
      CutAppended(s, t, size);
      ParseResumes(st', s[size..], t);
    case _ =>
  }

  function Concat(chunks: seq<seq<Byte>>): seq<Byte> {
    if chunks == [] then [] else chunks[0] + Concat(chunks[1..])
  }

  /** Feed a stream chunk by chunk, keeping the bytes not yet used. */
  function Drive(st: State, held: seq<Byte>, chunks: seq<seq<Byte>>): Outcome
    decreases |chunks|
  {
    var o := Parse(st, held);
    if chunks == [] || !o.NeedMore? then o
    else
      ParseResumes(st, held, []);
      Shift(o.used, Drive(o.state, held[o.used..] + chunks[0], chunks[1..]))
  }

  /** However a stream is cut into chunks, it parses to the same elements, the
      same error, or the same point in the middle of an instruction. */
  lemma {:induction false} ChunksDoNotMatter(st: State, held: seq<Byte>, chunks: seq<seq<Byte>>)
    ensures Drive(st, held, chunks) == Parse(st, held + Concat(chunks))
    decreases |chunks|
  {
    hide Next;
    ParseResumes(st, held, Concat(chunks));
    if chunks == [] {
      assert held + Concat(chunks) == held;
    } else {
      var o := Parse(st, held);
      if o.NeedMore? {
        var rest := held[o.used..];
        ChunksDoNotMatter(o.state, rest + chunks[0], chunks[1..]);
        assert rest + chunks[0] + Concat(chunks[1..]) == rest + Concat(chunks);
      }
    }
  }

  /** Parsing from `a` uses up the bytes and goes on from `b`, whatever follows. */
  ghost predicate Consumes(a: State, bytes: seq<Byte>, b: State) {
    forall t: seq<Byte> :: Parse(a, bytes + t) == Shift(|bytes|, Parse(b, t))
  }

  /** Parsing from `a` ends the instruction with these bytes. */
  ghost predicate Completes(a: State, bytes: seq<Byte>, elements: seq<seq<Byte>>) {
    forall t: seq<Byte> :: Parse(a, bytes + t) == Done(elements, |bytes|)
  }

  ghost predicate Fails(a: State, bytes: seq<Byte>) {
    forall t: seq<Byte> :: Parse(a, bytes + t) == Fail
  }

  lemma ConsumesNothing(a: State)
    ensures Consumes(a, [], a)
  {
    hide Next, Parse;
    forall t: seq<Byte> ensures Parse(a, [] + t) == Shift(0, Parse(a, t)) {
      assert [] + t == t;
    }
  }

  /** One more move after the bytes already used. */
  lemma ExtendParse(a: State, bytes: seq<Byte>, b: State, more: seq<Byte>)
    requires Consumes(a, bytes, b)
    ensures Next(b, more) == Reject ==> Fails(a, bytes + more)
    ensures Next(b, more) == Finish && |more| == 1 ==> Completes(a, bytes + more, b.done + [b.cur])
    ensures Next(b, more).Take? && Next(b, more).size == |more| ==> Consumes(a, bytes + more, Next(b, more).state)
  {
    hide Next;
    forall t: seq<Byte>
      ensures Parse(a, bytes + more + t) == Shift(|bytes|, Parse(b, more + t))
      ensures !Next(b, more).Wait? ==> Next(b, more + t) == Next(b, more)
      ensures (more + t)[|more|..] == t
    {
      assert bytes + more + t == bytes + (more + t);
      NextIsStable(b, more, t);
    }
  }

  /** Parsing some bytes and then more bytes. */
  lemma ChainParse(a: State, bytes: seq<Byte>, b: State, more: seq<Byte>, c: State, elements: seq<seq<Byte>>)
    requires Consumes(a, bytes, b)
    ensures Consumes(b, more, c) ==> Consumes(a, bytes + more, c)
    ensures Completes(b, more, elements) ==> Completes(a, bytes + more, elements)
    ensures Fails(b, more) ==> Fails(a, bytes + more)
  {
    hide Next, Parse;
    forall t: seq<Byte> ensures Parse(a, bytes + more + t) == Shift(|bytes|, Parse(b, more + t)) {
      assert bytes + more + t == bytes + (more + t);
    }
  }

  lemma EmptyWaits(st: State)
    requires st.phase.Length? ==> |st.done| < MAX_ELEMENTS
    ensures Next(st, []) == Wait
  {
  }

  lemma TooManyFail(st: State, bytes: seq<Byte>)
    requires st.phase.Length? && |st.done| >= MAX_ELEMENTS
    ensures Fails(st, bytes)
  {
  }

  lemma FailsAnyway(a: State, bytes: seq<Byte>, more: seq<Byte>)
    requires Fails(a, bytes)
    ensures Fails(a, bytes + more)
  {
    forall t: seq<Byte> ensures Parse(a, bytes + more + t) == Fail {
      assert bytes + more + t == bytes + (more + t);
    }
  }

  /** The length prefix loop of guac_parser_append. */
  method ScanLength(s: seq<Byte>, left: nat, ghost done: seq<seq<Byte>>)
    returns (ok: bool, dot: bool, used: nat, length: nat)
    requires |done| < MAX_ELEMENTS && left <= MAX_LENGTH
    ensures !ok ==> Fails(State(Length, done, [], left), s)
    ensures ok ==> used <= |s| && length <= MAX_LENGTH
    ensures ok ==> Consumes(State(Length, done, [], left), s[..used],
                            State(if dot then Content else Length, done, [], length))
    ensures ok && !dot ==> used == |s|
    ensures ok && dot ==> used > 0
    ensures used == 0 ==> length == left
  {
    hide Parse, Consumes, Fails;
    ghost var st := State(Length, done, [], left);
    ok, dot, used, length := true, false, 0, left;
    ConsumesNothing(st);
    while used < |s|
      invariant used <= |s| && ok && !dot && (used == 0 ==> length == left)
      invariant if length <= MAX_LENGTH then Consumes(st, s[..used], State(Length, done, [], length))
                else Fails(st, s[..used])
    {
      var c := s[used];
      assert s[..used + 1] == s[..used] + [c];
      if length <= MAX_LENGTH {
        ExtendParse(st, s[..used], State(Length, done, [], length), [c]);
      } else {
        FailsAnyway(st, s[..used], [c]);
      }
      used := used + 1;
      if ZERO <= c <= NINE {
        length := length * 10 + (c - ZERO);
      } else if c == DOT {
        dot := true;
        break;
      } else {
        ok := false;
        break;
      }
    }
    if length > MAX_LENGTH {
      ok := false;
    }
    if !ok {
      assert s == s[..used] + s[used..];
      FailsAnyway(st, s[..used], s[used..]);
    }
  }

  datatype ContentEnd = Open | EndOfElement | EndOfInstruction | BadTerminator

  /** The content loop of guac_parser_append. */
  method ScanContent(s: seq<Byte>, left: nat, ghost done: seq<seq<Byte>>, ghost cur: seq<Byte>)
    returns (end: ContentEnd, used: nat, left': nat)
    ensures used <= |s| && left' <= left
    ensures end.Open? ==>
              Consumes(State(Content, done, cur, left), s[..used], State(Content, done, cur + s[..used], left'))
    ensures end.Open? && used == 0 ==> left' == left && Next(State(Content, done, cur, left), s) == Wait
    ensures end.EndOfElement? ==> used > 0 && left' == 0
    ensures end.EndOfElement? ==>
              Consumes(State(Content, done, cur, left), s[..used], State(Length, done + [cur + s[..used - 1]], [], 0))
    ensures end.EndOfInstruction? ==> used > 0
    ensures end.EndOfInstruction? ==>
              Completes(State(Content, done, cur, left), s[..used], done + [cur + s[..used - 1]])
    ensures end.BadTerminator? ==> Fails(State(Content, done, cur, left), s)
  {
    hide Parse, Consumes, Completes, Fails;
    ghost var st := State(Content, done, cur, left);
    end, used, left' := Open, 0, left;
    ConsumesNothing(st);
    assert cur + s[..0] == cur;
    while used < |s|
      invariant used <= |s| && end.Open? && left' <= left
      invariant Consumes(st, s[..used], State(Content, done, cur + s[..used], left'))
      invariant used == 0 ==> left' == left
      decreases |s| - used
    {
      var c := s[used];
      var size := CharSize(c);
      if size + used > |s| {
        assert used == 0 ==> Next(st, s) == Wait;
        break;
      }
      ghost var before := s[..used];
      ghost var char1 := s[used..used + size];
      assert s[..used + size] == before + char1;
      assert cur + s[..used + size] == cur + before + char1[..size];
      ExtendParse(st, before, State(Content, done, cur + before, left'), char1);
      used := used + size;
      if left' == 0 {
        if c == SEMICOLON {
          end := EndOfInstruction;
        } else if c == COMMA {
          end := EndOfElement;
        } else {
          end := BadTerminator;
          assert s == s[..used] + s[used..];
          FailsAnyway(st, s[..used], s[used..]);
        }
        break;
      }
      left' := left' - 1;
    }
  }

  // ---------------------------------------------------------------- the parser object

  lemma CutSlice<T>(s: seq<T>, lo: nat, hi: nat, n: nat)
    requires lo <= hi <= |s| && n <= hi - lo
    ensures s[lo..hi][..n] == s[lo..lo + n] && s[lo..hi][n..] == s[lo + n..hi]
  {
  }

  lemma JoinSlices<T>(s: seq<T>, lo: nat, mid: nat, hi: nat)
    requires lo <= mid <= hi <= |s|
    ensures s[lo..mid] + s[mid..hi] == s[lo..hi]
  {
  }

  /** The bytes between the recorded offsets. */
  ghost function ElementsOf(bytes: seq<Byte>, starts: seq<nat>, ends: seq<nat>): (r: seq<seq<Byte>>)
    requires |ends| <= |starts|
    requires forall i :: 0 <= i < |ends| ==> starts[i] <= ends[i] < |bytes|
    ensures |r| == |ends|
    ensures forall i :: 0 <= i < |r| ==> r[i] == bytes[starts[i]..ends[i]]
  {
    if ends == [] then []
    else
      var n := |ends| - 1;
      ElementsOf(bytes, starts, ends[..n]) + [bytes[starts[n]..ends[n]]]
  }

  ghost predicate NulAt(bytes: seq<Byte>, ends: seq<nat>) {
    forall i :: 0 <= i < |ends| ==> ends[i] < |bytes| && bytes[ends[i]] == 0
  }

  ghost function Lower(s: seq<nat>, n: nat): (r: seq<nat>)
    requires forall i :: 0 <= i < |s| ==> n <= s[i]
    ensures |r| == |s| && forall i :: 0 <= i < |s| ==> r[i] == s[i] - n
  {
    seq(|s|, i requires 0 <= i < |s| => s[i] - n)
  }

  lemma ShiftedSlice(a: seq<Byte>, b: seq<Byte>, n: nat, end: nat, lo: nat, hi: nat)
    requires n <= lo <= hi <= end <= |a| && |b| == |a| && b[..end - n] == a[n..end]
    ensures b[lo - n..hi - n] == a[lo..hi]
  {
    forall k | 0 <= k < hi - lo ensures b[lo - n..hi - n][k] == a[lo..hi][k] {
      assert b[..end - n][lo - n + k] == a[n..end][lo - n + k];
    }
  }

  lemma ShiftedNul(a: seq<Byte>, b: seq<Byte>, ends: seq<nat>, n: nat, end: nat)
    requires n <= end <= |a| && |b| == |a| && b[..end - n] == a[n..end] && NulAt(a, ends)
    requires forall i :: 0 <= i < |ends| ==> n <= ends[i] < end
    ensures NulAt(b, Lower(ends, n))
  {
    forall i | 0 <= i < |ends| ensures b[ends[i] - n] == 0 {
      assert b[..end - n][ends[i] - n] == a[n..end][ends[i] - n];
    }
  }

  lemma NoNul(bytes: seq<Byte>)
    ensures NulAt(bytes, [])
  {
  }

  lemma ShiftedElements(a: seq<Byte>, b: seq<Byte>, starts: seq<nat>, ends: seq<nat>, n: nat, end: nat)
    requires |ends| <= |starts| && n <= end <= |a| && |b| == |a| && b[..end - n] == a[n..end]
    requires forall i :: 0 <= i < |starts| ==> n <= starts[i]
    requires forall i :: 0 <= i < |ends| ==> starts[i] <= ends[i] < end
    ensures ElementsOf(b, Lower(starts, n), Lower(ends, n)) == ElementsOf(a, starts, ends)
  {
    hide ElementsOf;
    var shifted, original := ElementsOf(b, Lower(starts, n), Lower(ends, n)), ElementsOf(a, starts, ends);
    forall i | 0 <= i < |ends| ensures shifted[i] == original[i] {
      hide *;
      ShiftedSlice(a, b, n, end, starts[i], ends[i]);
    }
  }

  lemma SamePrefixElements(a: seq<Byte>, b: seq<Byte>, starts: seq<nat>, ends: seq<nat>, p: nat)
    requires |ends| <= |starts| && p <= |a| && |b| == |a| && b[..p] == a[..p]
    requires forall i :: 0 <= i < |ends| ==> starts[i] <= ends[i] < p
    ensures ElementsOf(b, starts, ends) == ElementsOf(a, starts, ends)
    ensures NulAt(a, ends) ==> NulAt(b, ends)
  {
    hide ElementsOf;
    assert forall k :: 0 <= k < p ==> b[k] == b[..p][k] && a[k] == a[..p][k];
    var x, y := ElementsOf(b, starts, ends), ElementsOf(a, starts, ends);
    forall i | 0 <= i < |ends| ensures x[i] == y[i] {
      assert x[i] == b[..p][starts[i]..ends[i]];
      assert y[i] == a[..p][starts[i]..ends[i]];
    }
  }

  /** Overwriting the byte after an element finishes it and leaves the earlier
      elements as they were. */
  lemma FinishElement(bytes: seq<Byte>, starts: seq<nat>, ends: seq<nat>, e: nat)
    requires |starts| == |ends| + 1 && starts[|ends|] <= e < |bytes|
    requires forall i :: 0 <= i < |ends| ==> starts[i] <= ends[i] < e
    ensures ElementsOf(bytes[e := 0], starts, ends + [e]) == ElementsOf(bytes, starts, ends) + [bytes[starts[|ends|]..e]]
    ensures NulAt(bytes, ends) ==> NulAt(bytes[e := 0], ends + [e])
  {
    hide ElementsOf;
    var after := bytes[e := 0];
    assert after[..e] == bytes[..e];
    forall i | 0 <= i < |ends| ensures after[starts[i]..ends[i]] == bytes[starts[i]..ends[i]] {
      assert after[starts[i]..ends[i]] == after[..e][starts[i]..ends[i]];
      assert bytes[starts[i]..ends[i]] == bytes[..e][starts[i]..ends[i]];
    }
    assert after[starts[|ends|]..e] == bytes[starts[|ends|]..e];
  }

  datatype ParseState = LengthState | ContentState | CompleteState | ErrorState

  datatype ReadResult = Success | ProtocolError | TooLong | NoData

  /** The parse failed, or has come to its last permitted element: whether an
      instruction of exactly that many elements is accepted depends on how its
      bytes arrive. */
  predicate AtLimit(o: Outcome) {
    match o
    case Fail => true
    case Done(elements, _) => |elements| >= MAX_ELEMENTS
    case NeedMore(state, _) => |state.done| + 1 >= MAX_ELEMENTS
  }

  lemma {:induction false} LastElement(st: State, s: seq<Byte>)
    requires |st.done| >= MAX_ELEMENTS - 1
    requires st.phase.Length? ==> |st.done| >= MAX_ELEMENTS
    ensures AtLimit(Parse(st, s))
    decreases |s|
  {
    var m := Next(st, s);
    if m.Take? {
      LastElement(m.state, s[m.size..]);
    }
  }

  lemma ErrorAtLimit(consumed: seq<Byte>, st: State, bytes: seq<Byte>, tail: seq<Byte>)
    requires Consumes(INIT, consumed, st)
    requires (st.phase.Content? && |st.done| == MAX_ELEMENTS - 1) || Fails(INIT, consumed + bytes)
    ensures AtLimit(Parse(INIT, consumed + bytes + tail))
  {
    hide Next, Parse;
    assert consumed + bytes + tail == consumed + (bytes + tail);
    if st.phase.Content? && |st.done| == MAX_ELEMENTS - 1 {
      LastElement(st, bytes + tail);
    }
  }

  lemma WaitNeedsMore(consumed: seq<Byte>, st: State, rest: seq<Byte>)
    requires Consumes(INIT, consumed, st) && Next(st, rest) == Wait
    ensures Parse(INIT, consumed + rest).NeedMore?
  {
  }

  lemma CompletesStream(consumed: seq<Byte>, elements: seq<seq<Byte>>, rest: seq<Byte>)
    requires Completes(INIT, consumed, elements)
    ensures Parse(INIT, consumed + rest) == Done(elements, |consumed|)
    ensures (consumed + rest)[|consumed|..] == rest
  {
  }

  /** The socket being read: the bytes still to come, and how much each wait and
      read brings, where a count that is not positive is a timeout or an error. */
  class Source {
    var pending: seq<Byte>
    var script: seq<int>

    constructor (pending: seq<Byte>, script: seq<int>)
      ensures this.pending == pending && this.script == script
    {
      this.pending, this.script := pending, script;
    }

    /** Every wait brings something, and there are enough of them for all that is
        still to come. */
    ghost predicate Delivers()
      reads this
    {
      |script| >= |pending| && forall i :: 0 <= i < |script| ==> script[i] > 0
    }

    method Receive(max: nat) returns (data: seq<Byte>)
      modifies this
      ensures |data| <= max && data + pending == old(pending)
      ensures old(script) != [] && old(script)[0] > 0 && max > 0 && old(pending) != [] ==> data != []
      ensures old(Delivers()) && max > 0 ==> Delivers() && (data == [] ==> pending == [])
    {
      if script == [] {
        return [];
      }
      var n := script[0];
      script := script[1..];
      if n > max { n := max; }
      if n > |pending| { n := |pending|; }
      if n <= 0 {
        return [];
      }
      data := pending[..n];
      pending := pending[n..];
    }
  }

  lemma CutReceived(received: seq<Byte>, pending: seq<Byte>)
    ensures var stream := received + pending; stream[..|received|] == received && stream[|received|..] == pending
  {
  }

  lemma JoinUnparsed(consumed: seq<Byte>, unparsed: seq<Byte>, pending: seq<Byte>)
    ensures var stream := consumed + unparsed + pending;
            stream == consumed + (unparsed + pending) && stream[|consumed|..] == unparsed + pending
  {
  }

  class GuacParser {
    const buffer: array<Byte>
    var unparsedStart: nat
    var unparsedEnd: nat
    var state: ParseState
    var elementLength: nat
    /** Offset of each element within the buffer. */
    var elementv: seq<nat>
    /** Where each finished element ends; the byte there was overwritten with NUL. */
    ghost var ends: seq<nat>

    /** Finished elements lie in the buffer before `pos`, each followed by NUL. */
    ghost predicate Layout(pos: nat)
      reads this, buffer
    {
      && |elementv| <= MAX_ELEMENTS && pos <= buffer.Length
      && |elementv| == |ends| + (if state == ContentState then 1 else 0)
      && (forall i :: 0 <= i < |ends| ==> elementv[i] <= ends[i] < pos) && NulAt(buffer[..], ends)
      && (state == ContentState ==> elementv[|ends|] <= pos)
    }

    ghost function Elements(): seq<seq<Byte>>
      requires |ends| <= |elementv|
      requires forall i :: 0 <= i < |ends| ==> elementv[i] <= ends[i] < buffer.Length
      reads this, buffer
    {
      ElementsOf(buffer[..], elementv, ends)
    }

    /** The parse this object stands for when it has used the buffer up to `pos`. */
    ghost function Abs(pos: nat): State
      requires Layout(pos)
      reads this, buffer
    {
      if state == ContentState then State(Content, Elements(), buffer[elementv[|ends|]..pos], elementLength)
      else State(Length, Elements(), [], elementLength)
    }

    /** What a call of guac_parser_append promises about the bytes it used, in
        terms of the parse the parser stood for before it. */
    ghost predicate Appended(before: State, bytes: seq<Byte>, pos: nat, parsed: nat)
      requires parsed <= |bytes|
      reads this, buffer
    {
      && (state == CompleteState ==>
           parsed > 0 && elementLength == 0 && Layout(pos + parsed) && Completes(before, bytes[..parsed], Elements()))
      && (state in {LengthState, ContentState} ==>
           && Layout(pos + parsed) && elementLength <= MAX_LENGTH
           && Consumes(before, bytes[..parsed], Abs(pos + parsed))
           && (parsed == 0 ==> Abs(pos) == before && Next(before, bytes) == Wait))
    }

    /** The part of guac_parser_append that reads a length prefix. */
    method AppendLength(pos: nat, end: nat) returns (parsed: nat)
      requires Layout(pos) && pos <= end <= buffer.Length && state == LengthState && |elementv| < MAX_ELEMENTS
      requires elementLength <= MAX_LENGTH
      modifies this`state, this`elementLength, this`elementv
      ensures parsed <= end - pos && state in {LengthState, ContentState, ErrorState}
      ensures old(elementv) <= elementv && forall i :: |old(elementv)| <= i < |elementv| ==> pos <= elementv[i]
      ensures state == ErrorState ==> parsed == 0 && Fails(old(Abs(pos)), buffer[pos..end])
      ensures state != ErrorState ==>
                && Layout(pos + parsed) && elementLength <= MAX_LENGTH && |ends| < MAX_ELEMENTS
                && Consumes(old(Abs(pos)), buffer[pos..pos + parsed], Abs(pos + parsed))
      ensures state == LengthState ==> parsed == end - pos
      ensures state == ContentState ==> parsed > 0
      ensures state == LengthState ==> Appended(old(Abs(pos)), buffer[pos..end], pos, parsed)
    {
      hide Parse, Consumes, Fails, Next, ElementsOf, NulAt;
      var ok, dot, used, length := ScanLength(buffer[pos..end], elementLength, Elements());
      if !ok {
        state := ErrorState;
        return 0;
      }
      parsed := used;
      CutSlice(buffer[..], pos, end, used);
      ghost var before := Elements();
      elementLength := length;
      if dot {
        elementv := elementv + [pos + used];
        state := ContentState;
        assert buffer[pos + used..pos + used] == [];
      }
      assert Elements() == before;
      if state == LengthState && parsed == 0 {
        EmptyWaits(Abs(pos));
        assert buffer[pos..end] == [];
      }
    }

    /** Overwrite the terminator of the current element with NUL, so that the
        element reads as a C string. */
    method Terminate(e: nat, complete: bool)
      requires Layout(e) && e < buffer.Length && state == ContentState
      modifies this`state, this`elementLength, this`ends, buffer
      ensures state == (if complete then CompleteState else LengthState) && elementLength == 0
      ensures Layout(e + 1) && Elements() == old(Elements()) + [old(buffer[elementv[|ends|]..e])]
      ensures forall k :: 0 <= k < buffer.Length && k != e ==> buffer[k] == old(buffer[k])
    {
      hide ElementsOf, NulAt;
      FinishElement(buffer[..], elementv, ends, e);
      buffer[e] := 0;
      elementLength := 0;
      ends := ends + [e];
      state := if complete then CompleteState else LengthState;
      assert buffer[..] == old(buffer[..])[e := 0];
    }

    lemma ErrorAppended(before: State, bytes: seq<Byte>, pos: nat)
      requires state == ErrorState
      ensures Appended(before, bytes, pos, 0)
    {
    }

    lemma ChainAppended(before: State, head: seq<Byte>, mid: State, rest: seq<Byte>, pos: nat, more: nat)
      requires head != [] && more <= |rest| && Consumes(before, head, mid) && Appended(mid, rest, pos + |head|, more)
      ensures Appended(before, head + rest, pos, |head| + more)
    {
      hide Parse, Consumes, Completes, ElementsOf, NulAt, Next;
      assert (head + rest)[..|head| + more] == head + rest[..more];
      if state == CompleteState {
        ChainParse(before, head, mid, rest[..more], mid, Elements());
      } else if state in {LengthState, ContentState} {
        ChainParse(before, head, mid, rest[..more], Abs(pos + |head| + more), []);
      }
    }

    /** The end of an element's content has been found among the bytes used. */
    method CloseElement(pos: nat, end: nat, used: nat, complete: bool, ghost before: State)
      requires Layout(pos) && 0 < used && pos + used <= end <= buffer.Length && state == ContentState && before == Abs(pos)
      requires var elements := before.done + [before.cur + buffer[pos..end][..used - 1]];
               if complete then Completes(before, buffer[pos..end][..used], elements)
               else Consumes(before, buffer[pos..end][..used], State(Length, elements, [], 0))
      modifies this`state, this`elementLength, this`ends, buffer
      ensures forall k :: 0 <= k < buffer.Length && !(pos <= k < pos + used) ==> buffer[k] == old(buffer[k])
      ensures state != ErrorState && Appended(before, old(buffer[pos..end]), pos, used)
    {
      hide Parse, Consumes, Completes, Next, ElementsOf, NulAt;
      CutSlice(buffer[..], pos, end, used - 1);
      JoinSlices(buffer[..], elementv[|ends|], pos, pos + used - 1);
      Terminate(pos + used - 1, complete);
    }

    /** The part of guac_parser_append that reads element content. */
    method AppendContent(pos: nat, end: nat) returns (parsed: nat)
      requires Layout(pos) && pos <= end <= buffer.Length && state == ContentState && elementLength <= MAX_LENGTH
      modifies this`state, this`elementLength, this`ends, buffer
      ensures parsed <= end - pos
      ensures forall k :: 0 <= k < buffer.Length && !(pos <= k < pos + parsed) ==> buffer[k] == old(buffer[k])
      ensures state == ErrorState ==> Fails(old(Abs(pos)), old(buffer[pos..end]))
      ensures Appended(old(Abs(pos)), old(buffer[pos..end]), pos, parsed)
    {
      hide Parse, Consumes, Completes, Fails, Next, ElementsOf, NulAt;
      var start := elementv[|ends|];
      var bytes := buffer[pos..end];
      ghost var done, cur := Elements(), buffer[start..pos];
      var scanned, used, left := ScanContent(bytes, elementLength, done, cur);
      if scanned.BadTerminator? {
        state := ErrorState;
        return 0;
      }
      parsed := used;
      CutSlice(buffer[..], pos, end, used);
      if scanned.Open? {
        JoinSlices(buffer[..], start, pos, pos + used);
        elementLength := left;
        assert Abs(pos + used) == State(Content, done, cur + bytes[..used], left);
      } else {
        CloseElement(pos, end, used, scanned.EndOfInstruction?, Abs(pos));
      }
    }

    /** guac_parser_append when it starts within a length prefix. */
    method AppendFromLength(pos: nat, end: nat) returns (parsed: nat)
      requires Layout(pos) && pos <= end <= buffer.Length && state == LengthState && |elementv| < MAX_ELEMENTS
      requires elementLength <= MAX_LENGTH
      modifies this`state, this`elementLength, this`elementv, this`ends, buffer
      ensures old(elementv) <= elementv && forall i :: |old(elementv)| <= i < |elementv| ==> pos <= elementv[i]
      ensures parsed <= end - pos
      ensures forall k :: 0 <= k < buffer.Length && !(pos <= k < pos + parsed) ==> buffer[k] == old(buffer[k])
      ensures state == ErrorState ==> Fails(old(Abs(pos)), old(buffer[pos..end]))
      ensures Appended(old(Abs(pos)), old(buffer[pos..end]), pos, parsed)
    {
      hide Parse, Consumes, Completes, Fails, ElementsOf, NulAt, Next, Appended, Layout;
      ghost var before, bytes := Abs(pos), buffer[pos..end];
      parsed := AppendLength(pos, end);
      CutSlice(buffer[..], pos, end, parsed);
      if state == ContentState {
        ghost var head, mid := bytes[..parsed], Abs(pos + parsed);
        ghost var rest := buffer[pos + parsed..end];
        assert bytes == head + rest;
        var more := AppendContent(pos + parsed, end);
        ChainAppended(before, head, mid, rest, pos, more);
        ChainParse(before, head, mid, rest, mid, []);
        parsed := parsed + more;
      } else if state == ErrorState {
        ErrorAppended(before, bytes, pos);
      }
    }

    /** guac_parser_append, on bytes of the parser's own buffer. An element count
        at the maximum is rejected on the next call even if the last element is
        only half read. */
    method Append(pos: nat, end: nat) returns (parsed: nat)
      requires Layout(pos) && pos <= end <= buffer.Length && elementLength <= MAX_LENGTH
      modifies this`state, this`elementLength, this`elementv, this`ends, buffer
      ensures old(elementv) <= elementv && forall i :: |old(elementv)| <= i < |elementv| ==> pos <= elementv[i]
      ensures parsed <= end - pos
      ensures forall k :: 0 <= k < buffer.Length && !(pos <= k < pos + parsed) ==> buffer[k] == old(buffer[k])
      ensures old(state) in {CompleteState, ErrorState} ==> parsed == 0 && state == old(state)
      ensures old(state) in {LengthState, ContentState} && old(|elementv|) == MAX_ELEMENTS ==> state == ErrorState
      ensures old(state) in {LengthState, ContentState} ==> Appended(old(Abs(pos)), old(buffer[pos..end]), pos, parsed)
      ensures old(state) in {LengthState, ContentState} && state == ErrorState ==>
                || (old(state) == ContentState && old(|elementv|) == MAX_ELEMENTS)
                || Fails(old(Abs(pos)), old(buffer[pos..end]))
    {
      hide Parse, Consumes, Completes, Fails, ElementsOf, Next, NulAt;
      parsed := 0;
      if |elementv| == MAX_ELEMENTS && state != CompleteState {
        if state == LengthState {
          TooManyFail(Abs(pos), buffer[pos..end]);
        }
        state := ErrorState;
      } else if state == LengthState {
        parsed := AppendFromLength(pos, end);
      } else if state == ContentState {
        parsed := AppendContent(pos, end);
      }
    }

    /** Holds between successful reads. The elements of the last instruction may
        since have been overwritten. */
    ghost predicate Valid()
      reads this
    {
      && unparsedStart <= unparsedEnd <= buffer.Length
      && (state == CompleteState || (state == LengthState && elementv == [] && ends == [] && elementLength == 0))
    }

    /** Bytes received but not yet part of an instruction. */
    ghost function Unparsed(): seq<Byte>
      requires unparsedStart <= unparsedEnd <= buffer.Length
      reads this, buffer
    {
      buffer[unparsedStart..unparsedEnd]
    }

    constructor (size: nat)
      ensures Valid() && fresh(buffer) && buffer.Length == size && Unparsed() == []
    {
      buffer := new Byte[size](_ => 0);
      unparsedStart, unparsedEnd := 0, 0;
      state, elementLength, elementv, ends := LengthState, 0, [], [];
    }

    method LowerElements(instr: nat)
      requires forall i :: 0 <= i < |elementv| ==> instr <= elementv[i]
      modifies this`elementv
      ensures elementv == Lower(old(elementv), instr)
    {
      for i := 0 to |elementv|
        invariant |elementv| == old(|elementv|)
        invariant forall k :: 0 <= k < |elementv| ==>
          elementv[k] == if k < i then old(elementv)[k] - instr else old(elementv)[k]
      {
        elementv := elementv[i := elementv[i] - instr];
      }
    }

    method MoveDown(instr: nat, end: nat)
      requires instr <= end <= buffer.Length
      modifies buffer
      ensures buffer[..][..end - instr] == old(buffer[..])[instr..end]
    {
      forall k | 0 <= k < end - instr {
        buffer[k] := buffer[k + instr];
      }
    }

    /** The buffer shift of guac_parser_read: the current instruction moves to
        the front, and its elements read the same there. */
    method ShiftDown(instr: nat, pos: nat, end: nat)
      requires Layout(pos) && instr <= pos <= end <= buffer.Length
      requires forall i :: 0 <= i < |elementv| ==> instr <= elementv[i]
      modifies this`elementv, this`ends, buffer
      ensures Layout(pos - instr) && Abs(pos - instr) == old(Abs(pos)) && |elementv| == old(|elementv|)
      ensures buffer[pos - instr..end - instr] == old(buffer[pos..end])
    {
      hide ElementsOf, NulAt;
      MoveDown(instr, end);
      LowerElements(instr);
      ends := Lower(ends, instr);
      ShiftedElements(old(buffer[..]), buffer[..], old(elementv), old(ends), instr, end);
      ShiftedNul(old(buffer[..]), buffer[..], old(ends), instr, end);
      if state == ContentState {
        ShiftedSlice(old(buffer[..]), buffer[..], instr, end, old(elementv)[|ends|], pos);
      }
      ShiftedSlice(old(buffer[..]), buffer[..], instr, end, pos, end);
    }

    /** The state of guac_parser_read between two rounds: `consumed` are the
        bytes of the current instruction used so far. */
    ghost predicate Reading(instr: nat, start: nat, end: nat, consumed: seq<Byte>)
      reads this, buffer
    {
      && instr <= start <= end <= buffer.Length && |consumed| == start - instr
      && (forall i :: 0 <= i < |elementv| ==> instr <= elementv[i])
      && (state != ErrorState ==> Layout(start) && elementLength <= MAX_LENGTH)
      && (state == CompleteState ==> elementLength == 0 && Completes(INIT, consumed, Elements()))
      && (state in {LengthState, ContentState} ==> Consumes(INIT, consumed, Abs(start)))
    }

    /** One round of parsing; `tail` is whatever follows the buffer. */
    method ParseMore(instr: nat, start: nat, end: nat, ghost consumed: seq<Byte>, ghost tail: seq<Byte>)
      returns (parsed: nat, ghost consumed': seq<Byte>)
      requires Reading(instr, start, end, consumed) && state in {LengthState, ContentState}
      modifies this`state, this`elementLength, this`elementv, this`ends, buffer
      ensures parsed <= end - start && Reading(instr, start + parsed, end, consumed')
      ensures consumed' + buffer[start + parsed..end] == consumed + old(buffer[start..end])
      ensures state == ErrorState ==> AtLimit(Parse(INIT, consumed + old(buffer[start..end]) + tail))
      ensures parsed == 0 && state != ErrorState ==>
                state in {LengthState, ContentState} && consumed' == consumed && Next(Abs(start), buffer[start..end]) == Wait
    {
      hide Parse, Consumes, Completes, Fails, ElementsOf, Next, AtLimit, NulAt;
      ghost var before, bytes := Abs(start), buffer[start..end];
      parsed := Append(start, end);
      ghost var elements := if state == CompleteState then Elements() else [];
      ghost var after := if state in {LengthState, ContentState} then Abs(start + parsed) else before;
      ChainParse(INIT, consumed, before, bytes[..parsed], after, elements);
      consumed' := consumed + bytes[..parsed];
      assert buffer[start + parsed..end] == bytes[parsed..] by {
        forall k | start + parsed <= k < end ensures buffer[k] == bytes[k - start] {
          assert !(start <= k < start + parsed);
        }
      }
      assert consumed' + bytes[parsed..] == consumed + bytes;
      if state == ErrorState {
        ChainParse(INIT, consumed, before, bytes, after, elements);
        ErrorAtLimit(consumed, before, bytes, tail);
      }
    }

    /** Store bytes after the ones already in the buffer. */
    method Store(pos: nat, end: nat, data: seq<Byte>)
      requires Layout(pos) && pos <= end && end + |data| <= buffer.Length
      modifies buffer
      ensures Layout(pos) && Abs(pos) == old(Abs(pos))
      ensures buffer[pos..end + |data|] == old(buffer[pos..end]) + data
    {
      hide ElementsOf, NulAt;
      forall k | 0 <= k < |data| {
        buffer[end + k] := data[k];
      }
      assert buffer[..][..end] == old(buffer[..])[..end];
      SamePrefixElements(old(buffer[..]), buffer[..], elementv, ends, end);
      if state == ContentState {
        ghost var first := elementv[|ends|];
        assert forall k :: first <= k < pos ==> buffer[k] == old(buffer[k]);
        assert buffer[first..pos] == old(buffer[first..pos]);
      }
    }

    /** The part of guac_parser_read that makes room in a full buffer. */
    method MakeRoom(instr: nat, start: nat, end: nat) returns (ok: bool, instr': nat, start': nat, end': nat)
      requires Layout(start) && instr <= start <= end <= buffer.Length
      requires forall i :: 0 <= i < |elementv| ==> instr <= elementv[i]
      modifies this`elementv, this`ends, buffer
      ensures !ok ==> instr == 0 && end == buffer.Length
      ensures ok ==> end' < buffer.Length
      ensures ok ==>
                && instr' <= start' <= end' <= buffer.Length && start' - instr' == start - instr
                && Layout(start') && Abs(start') == old(Abs(start))
                && (forall i :: 0 <= i < |elementv| ==> instr' <= elementv[i])
                && buffer[start'..end'] == old(buffer[start..end])
    {
      hide ElementsOf, NulAt;
      ok, instr', start', end' := true, instr, start, end;
      if end == buffer.Length {
        if instr == 0 {
          return false, instr, start, end;
        }
        ShiftDown(instr, start, end);
        instr', start', end' := 0, start - instr, end - instr;
      }
    }

    /** The part of guac_parser_read that receives more bytes. */
    method Refill(source: Source, instr: nat, start: nat, end: nat)
      returns (result: ReadResult, instr': nat, start': nat, end': nat)
      requires state in {LengthState, ContentState} && Layout(start) && instr <= start <= end <= buffer.Length
      requires forall i :: 0 <= i < |elementv| ==> instr <= elementv[i]
      modifies this`elementv, this`ends, buffer, source
      ensures result in {Success, TooLong, NoData}
      ensures result == Success ==>
                && instr' <= start' <= end' <= buffer.Length && start' - instr' == start - instr
                && Layout(start') && Abs(start') == old(Abs(start)) && |source.pending| < old(|source.pending|)
                && (forall i :: 0 <= i < |elementv| ==> instr' <= elementv[i])
                && buffer[start'..end'] + source.pending == old(buffer[start..end]) + old(source.pending)
      ensures result == TooLong ==> instr == 0 && end == buffer.Length
      ensures result == NoData ==> source.pending == old(source.pending)
      ensures old(source.Delivers()) ==> source.Delivers() && (result == NoData ==> source.pending == [])
    {
      hide ElementsOf, NulAt, Layout;
      var ok;
      ok, instr', start', end' := MakeRoom(instr, start, end);
      if !ok {
        return TooLong, instr', start', end';
      }
      var data := source.Receive(buffer.Length - end');
      if data == [] {
        return NoData, instr', start', end';
      }
      Store(start', end', data);
      end' := end' + |data|;
      result := Success;
    }

    /** One round of guac_parser_read: parse what is there, or receive more. */
    method Round(source: Source, instr: nat, start: nat, end: nat, ghost consumed: seq<Byte>)
      returns (result: ReadResult, instr': nat, start': nat, end': nat, ghost consumed': seq<Byte>)
      requires Reading(instr, start, end, consumed) && state in {LengthState, ContentState}
      modifies this`state, this`elementLength, this`elementv, this`ends, buffer, source
      ensures result in {Success, TooLong, NoData}
      ensures result == Success ==>
                && start' <= end' <= buffer.Length && Reading(instr', start', end', consumed')
                && (|source.pending| < old(|source.pending|) ||
                    (source.pending == old(source.pending) &&
                     (end' - start' < end - start || (end' - start' == end - start && state == ErrorState))))
                && consumed' + buffer[start'..end'] + source.pending ==
                   consumed + old(buffer[start..end]) + old(source.pending)
      ensures result == Success && state == ErrorState ==>
                AtLimit(Parse(INIT, consumed + old(buffer[start..end]) + old(source.pending)))
      ensures result == TooLong ==> |consumed| + (end - start) == buffer.Length
      ensures result == NoData ==> source.pending == old(source.pending)
      ensures result in {TooLong, NoData} ==> Parse(INIT, consumed + old(buffer[start..end])).NeedMore?
      ensures old(source.Delivers()) ==> source.Delivers() && (result == NoData ==> source.pending == [])
    {
      hide Parse, Consumes, Completes, Fails, ElementsOf, Next, AtLimit, NulAt;
      ghost var bytes := buffer[start..end];
      var parsed, c := ParseMore(instr, start, end, consumed, source.pending);
      consumed' := c;
      if parsed == 0 && state != ErrorState {
        assert buffer[start..end] == bytes by {
          assert consumed + buffer[start..end] == consumed + bytes;
          assert (consumed + buffer[start..end])[|consumed|..] == buffer[start..end];
          assert (consumed + bytes)[|consumed|..] == bytes;
        }
        WaitNeedsMore(consumed, Abs(start), bytes);
        result, instr', start', end' := Refill(source, instr, start, end);
        if result == Success {
          assert consumed + buffer[start'..end'] + source.pending == consumed + (buffer[start'..end'] + source.pending);
          assert consumed + bytes + old(source.pending) == consumed + (bytes + old(source.pending));
        }
      } else {
        result, instr', start', end' := Success, instr, start + parsed, end;
      }
    }

    lemma BeginsReading(start: nat, end: nat)
      requires state == LengthState && elementv == [] && ends == [] && elementLength == 0
      requires start <= end <= buffer.Length
      ensures Reading(start, start, end, [])
    {
      hide Parse, Consumes, Completes, ElementsOf, NulAt;
      assert Elements() == [];
      ConsumesNothing(INIT);
      NoNul(buffer[..]);
    }

    lemma FinishesReading(instr: nat, start: nat, end: nat, consumed: seq<Byte>, rest: seq<Byte>)
      requires Reading(instr, start, end, consumed) && state == CompleteState
      ensures Layout(start) && Parse(INIT, consumed + rest) == Done(Elements(), |consumed|)
    {
      hide Parse, Consumes, Completes, ElementsOf, NulAt;
      CompletesStream(consumed, Elements(), rest);
    }

    /** guac_parser_read. A successful read delivers exactly the elements that
        parsing the bytes not yet used gives, however the bytes arrived and
        however often the buffer was shifted, and no byte is lost: what the
        instruction used, what is left in the buffer and what the socket still
        holds make up the original bytes. */
    method Read(source: Source) returns (result: ReadResult, ghost used: nat)
      requires Valid()
      modifies this, buffer, source
      ensures result == Success ==>
                var stream := old(Unparsed()) + old(source.pending);
                && Valid() && state == CompleteState && Layout(unparsedStart) && used <= |stream|
                && Parse(INIT, stream) == Done(Elements(), used)
                && Unparsed() + source.pending == stream[used..]
      ensures result == ProtocolError ==> AtLimit(Parse(INIT, old(Unparsed()) + old(source.pending)))
      ensures result == TooLong ==>
                var stream := old(Unparsed()) + old(source.pending);
                |stream| >= buffer.Length && Parse(INIT, stream[..buffer.Length]).NeedMore?
      ensures result == NoData ==>
                var stream := old(Unparsed()) + old(source.pending);
                && |source.pending| <= |stream| && stream[|stream| - |source.pending|..] == source.pending
                && Parse(INIT, stream[..|stream| - |source.pending|]).NeedMore?
      ensures old(source.Delivers()) ==> source.Delivers() && (result == NoData ==> source.pending == [])
    {
      hide Parse, Reading, NulAt, AtLimit, ElementsOf, Source.Delivers;
      used := 0;
      ghost var stream := Unparsed() + source.pending;
      ghost var consumed: seq<Byte> := [];
      var start: nat, end: nat, instr: nat := unparsedStart, unparsedEnd, unparsedStart;
      if state == CompleteState {
        state, elementLength, elementv, ends := LengthState, 0, [], [];
      }
      BeginsReading(start, end);
      while state != CompleteState && state != ErrorState
        invariant start <= end <= buffer.Length && Reading(instr, start, end, consumed)
        invariant consumed + buffer[start..end] + source.pending == stream
        invariant state == ErrorState ==> AtLimit(Parse(INIT, stream))
        invariant old(source.Delivers()) ==> source.Delivers()
        decreases |source.pending|, end - start, state != ErrorState
      {
        ghost var received := consumed + buffer[start..end];
        CutReceived(received, source.pending);
        result, instr, start, end, consumed := Round(source, instr, start, end, consumed);
        if result != Success {
          return;
        }
      }
      if state == ErrorState {
        return ProtocolError, used;
      }
      FinishesReading(instr, start, end, consumed, buffer[start..end] + source.pending);
      unparsedStart, unparsedEnd := start, end;
      used := |consumed|;
      JoinUnparsed(consumed, buffer[start..end], source.pending);
      result := Success;
    }

    /** guac_parser_shift: take received bytes out of the buffer unparsed. What
        is taken and what is left are what was there. */
    method Drain(length: nat) returns (data: seq<Byte>)
      requires Valid()
      modifies this`unparsedStart
      ensures Valid() && data + Unparsed() == old(Unparsed())
      ensures |data| == if length < old(|Unparsed()|) then length else old(|Unparsed()|)
      ensures unparsedStart >= old(unparsedStart)
    {
      var copyEnd := unparsedEnd;
      if copyEnd - unparsedStart > length {
        copyEnd := unparsedStart + length;
      }
      data := buffer[unparsedStart..copyEnd];
      unparsedStart := copyEnd;
    }
  }

  /** A call on a parser: read an instruction, or take bytes out unparsed. */
  datatype Call = ReadCall | ShiftCall(length: nat)

  /** The call took the bytes from one offset of the stream to another, and gave
      the instruction that parses from there, or the bytes themselves. */
  ghost predicate Took(stream: seq<Byte>, call: Call, from: nat, to: nat, result: seq<seq<Byte>>) {
    from <= to <= |stream| &&
    match call
    case ReadCall => Parse(INIT, stream[from..]) == Done(result, to - from)
    case ShiftCall(length) => to - from <= length && result == [stream[from..to]]
  }

  lemma TakenFrom(stream: seq<Byte>, from: nat, data: seq<Byte>, left: seq<Byte>, pending: seq<Byte>)
    requires from <= |stream| && data + left + pending == stream[from..]
    ensures var to := from + |data|; to <= |stream| && stream[from..to] == data && stream[to..] == left + pending
  {
    var to := from + |data|;
    assert stream[from..][..|data|] == data && stream[from..][|data|..] == left + pending;
    CutSlice(stream, from, |stream|, |data|);
  }

  method Perform(parser: GuacParser, source: Source, call: Call, ghost stream: seq<Byte>, ghost from: nat)
    returns (ok: bool, ghost to: nat, ghost result: seq<seq<Byte>>)
    requires parser.Valid() && from <= |stream| && parser.Unparsed() + source.pending == stream[from..]
    modifies parser, parser.buffer, source
    ensures ok ==> parser.Valid() && Took(stream, call, from, to, result)
    ensures ok ==> to <= |stream| && parser.Unparsed() + source.pending == stream[to..]
  {
    hide Parse, AtLimit, NulAt, ElementsOf;
    ok, to, result := true, from, [];
    match call
    case ReadCall =>
      var r, used := parser.Read(source);
      if r != Success {
        return false, from, [];
      }
      CutSlice(stream, from, |stream|, used);
      to, result := from + used, parser.Elements();
    case ShiftCall(length) =>
      var data := parser.Drain(length);
      to, result := from + |data|, [data];
      TakenFrom(stream, from, data, parser.Unparsed(), source.pending);
  }

  /** A series of calls. As long as all succeed, each continues exactly where the
      one before stopped, so that together with what is left they make up the
      stream, however its bytes arrive. */
  method Session(parser: GuacParser, source: Source, calls: seq<Call>)
    returns (ok: bool, ghost offsets: seq<nat>, ghost results: seq<seq<seq<Byte>>>)
    requires parser.Valid()
    modifies parser, parser.buffer, source
    ensures ok ==>
              var stream := old(parser.Unparsed()) + old(source.pending);
              && parser.Valid() && |offsets| == |calls| + 1 && |results| == |calls| && offsets[0] == 0
              && (forall i :: 0 <= i < |calls| ==> Took(stream, calls[i], offsets[i], offsets[i + 1], results[i]))
              && offsets[|calls|] <= |stream| && parser.Unparsed() + source.pending == stream[offsets[|calls|]..]
  {
    hide Took;
    ghost var stream := parser.Unparsed() + source.pending;
    offsets, results := [0], [];
    for i := 0 to |calls|
      invariant parser.Valid() && |offsets| == i + 1 && |results| == i && offsets[0] == 0
      invariant forall j :: 0 <= j < i ==> Took(stream, calls[j], offsets[j], offsets[j + 1], results[j])
      invariant offsets[i] <= |stream| && parser.Unparsed() + source.pending == stream[offsets[i]..]
    {
      ghost var to, result;
      ok, to, result := Perform(parser, source, calls[i], stream, offsets[i]);
      if !ok {
        return;
      }
      offsets, results := offsets + [to], results + [result];
    }
    ok := true;
  }

  /** An instruction of exactly the maximum number of elements is rejected when
      a call of append begins within its last element, although the bytes that
      complete it are there; read in one call it would have been accepted. */
  method LastElementReadInTwoCalls(p: GuacParser, pos: nat, end: nat) returns (parsed: nat)
    requires p.Layout(pos) && pos < end <= p.buffer.Length
    requires p.state == ContentState && |p.elementv| == MAX_ELEMENTS && p.elementLength == 0
    requires p.buffer[pos] == SEMICOLON
    modifies p, p.buffer
    ensures p.state == ErrorState
    ensures Parse(old(p.Abs(pos)), old(p.buffer[pos..end])).Done?
  {
    parsed := p.Append(pos, end);
  }
}
