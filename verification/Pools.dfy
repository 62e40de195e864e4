/** Pools of integers (src/libguac/pool.c) and the stream, buffer and layer
    indices drawn from them (src/libguac/client.c). */
module Pools {
  import opened Basics

  /** A pool: values below `next` were handed out at some time, and those in
      `free` have been returned since, the earliest first. */
  datatype Pool = Pool(minSize: int, next: int, free: seq<int>, active: int)

  datatype Drawn = Drawn(value: int, pool: Pool)

  /** guac_pool_next_int. */
  function Take(p: Pool): Drawn {
    if p.free == [] || p.next < p.minSize then Drawn(p.next, p.(next := p.next + 1, active := p.active + 1))
    else Drawn(p.free[0], p.(free := p.free[1..], active := p.active + 1))
  }

  /** guac_pool_free_int. */
  function Give(p: Pool, value: int): Pool {
    p.(free := p.free + [value], active := p.active - 1)
  }

  /** The values in use and the values free are exactly those below `next`, and
      none is both. */
  predicate Partition(p: Pool, live: set<int>) {
    && p.next >= 0 && p.active == |live| && NoRepeats(p.free)
    && (forall v :: v in live ==> 0 <= v < p.next && v !in p.free)
    && (forall v :: v in p.free ==> 0 <= v < p.next)
    && (forall v :: 0 <= v < p.next ==> v in live || v in p.free)
  }

  lemma HeadTaken(s: seq<int>)
    requires s != [] && NoRepeats(s)
    ensures s[0] in s && s[0] !in s[1..] && NoRepeats(s[1..])
    ensures forall v :: v in s <==> v == s[0] || v in s[1..]
  {
    assert s == [s[0]] + s[1..];
  }

  /** A value drawn was not in use. */
  lemma TakeKeeps(p: Pool, live: set<int>)
    requires Partition(p, live)
    ensures Take(p).value !in live && Take(p).value >= 0
    ensures Partition(Take(p).pool, live + {Take(p).value})
  {
    if p.free != [] {
      HeadTaken(p.free);
    }
  }

  lemma GiveKeeps(p: Pool, live: set<int>, value: int)
    requires Partition(p, live) && value in live
    ensures Partition(Give(p, value), live - {value})
  {
  }

  lemma GiveRuins(p: Pool, live: set<int>)
    ensures !Partition(Give(p, -1), live)
  {
    assert Give(p, -1).free[|p.free|] == -1;
    assert -1 in Give(p, -1).free;
  }

  /** Of n values at most n are in a set, and all are if n are. */
  lemma {:induction false} CountBelow(n: nat, s: set<int>)
    requires forall v :: v in s ==> 0 <= v < n
    ensures |s| <= n && (|s| == n <==> forall v :: 0 <= v < n ==> v in s)
  {
    if n == 0 {
      assert forall v :: v !in s;
      assert s == {};
    } else if n - 1 in s {
      var rest := s - {n - 1};
      CountBelow(n - 1, rest);
      assert forall v :: v in s <==> v in rest || v == n - 1;
    } else {
      CountBelow(n - 1, s);
    }
  }

  /** A pool that reuses values as soon as it can hands out only values below
      the greatest number ever in use. */
  lemma TakeIsSmall(p: Pool, live: set<int>, max: nat)
    requires Partition(p, live) && p.minSize == 0 && p.next <= max
    ensures p.active <= max && (p.active == max <==> forall v :: 0 <= v < max ==> v in live)
    ensures p.active < max ==> 0 <= Take(p).value < max && Take(p).pool.next <= max
  {
    CountBelow(max, live);
    if p.free == [] {
      CountBelow(p.next, live);
    } else {
      assert p.free[0] in p.free;
    }
  }

  // ------------------------------------------------------------------ whole runs

  datatype Op = Alloc | Free(value: int)

  /** The state of a pool after a run, and the values in use then. */
  datatype Usage = Usage(pool: Pool, live: set<int>)

  /** A step of a run. Only values in use are freed. */
  predicate Allowed(u: Usage, op: Op) { op.Free? ==> op.value in u.live }

  function Perform(u: Usage, op: Op): Usage {
    match op
    case Alloc => Usage(Take(u.pool).pool, u.live + {Take(u.pool).value})
    case Free(v) => Usage(Give(u.pool, v), u.live - {v})
  }

  function After(minSize: int, ops: seq<Op>): Usage {
    if ops == [] then Usage(Pool(minSize, 0, [], 0), {})
    else Perform(After(minSize, ops[..|ops| - 1]), ops[|ops| - 1])
  }

  predicate Proper(minSize: int, ops: seq<Op>) {
    forall i :: 0 <= i < |ops| ==> Allowed(After(minSize, ops[..i]), ops[i])
  }

  lemma EmptyPool(minSize: int)
    ensures Partition(Pool(minSize, 0, [], 0), {})
  {
  }

  /** In every run where only values in use are freed, values in use and free
      values partition those handed out, and a draw never gives a value in use. */
  lemma {:induction false} RunKeeps(minSize: int, ops: seq<Op>)
    requires Proper(minSize, ops)
    ensures var u := After(minSize, ops); Partition(u.pool, u.live) && Take(u.pool).value !in u.live
  {
    hide Partition, Take, Give;
    var n := |ops| - 1;
    if ops != [] {
      var front, op := ops[..n], ops[n];
      assert forall i :: 0 <= i < n ==> front[..i] == ops[..i];
      RunKeeps(minSize, front);
      var u := After(minSize, front);
      assert Allowed(u, op);
      TakeKeeps(u.pool, u.live);
      if op.Free? {
        GiveKeeps(u.pool, u.live, op.value);
      }
    } else {
      EmptyPool(minSize);
    }
    var u := After(minSize, ops);
    TakeKeeps(u.pool, u.live);
  }

  /** The values drawn in a run, in order; those freed; and those drawn that had been drawn
      before. */
  function Draws(minSize: int, ops: seq<Op>): seq<int> {
    if ops == [] then []
    else
      var n := |ops| - 1;
      Draws(minSize, ops[..n]) + if ops[n].Alloc? then [Take(After(minSize, ops[..n]).pool).value] else []
  }

  function Freed(ops: seq<Op>): seq<int> {
    if ops == [] then []
    else
      var n := |ops| - 1;
      Freed(ops[..n]) + if ops[n].Free? then [ops[n].value] else []
  }

  function Reused(minSize: int, ops: seq<Op>): seq<int> {
    if ops == [] then []
    else
      var n := |ops| - 1;
      var v := Take(After(minSize, ops[..n]).pool).value;
      Reused(minSize, ops[..n]) + if ops[n].Alloc? && v in Draws(minSize, ops[..n]) then [v] else []
  }

  lemma ProperFront(minSize: int, ops: seq<Op>)
    requires Proper(minSize, ops) && ops != []
    ensures var n := |ops| - 1; Proper(minSize, ops[..n]) && Allowed(After(minSize, ops[..n]), ops[n])
  {
    var n := |ops| - 1;
    assert forall i :: 0 <= i < n ==> ops[..n][..i] == ops[..i];
  }

  /** Every value below the next has been drawn, and those reused and those still free are
      together those freed, in that order. */
  ghost predicate Ledger(p: Pool, draws: seq<int>, reused: seq<int>, freed: seq<int>) {
    && (forall v :: v in draws <==> 0 <= v < p.next)
    && reused + p.free == freed && (reused != [] ==> p.next >= p.minSize)
  }

  lemma LedgerTake(p: Pool, live: set<int>, draws: seq<int>, reused: seq<int>, freed: seq<int>)
    requires Partition(p, live) && Ledger(p, draws, reused, freed)
    ensures var v := Take(p).value;
            Ledger(Take(p).pool, draws + [v], reused + (if v in draws then [v] else []), freed)
  {
    var v := Take(p).value;
    if p.free != [] && p.next >= p.minSize {
      assert p.free[0] in p.free && p.free == [p.free[0]] + p.free[1..];
    } else {
      assert reused + [] == reused;
    }
  }

  lemma LedgerGive(p: Pool, draws: seq<int>, reused: seq<int>, freed: seq<int>, v: int)
    requires Ledger(p, draws, reused, freed)
    ensures Ledger(Give(p, v), draws, reused, freed + [v])
  {
  }

  lemma {:induction false} ReuseKeeps(minSize: int, ops: seq<Op>)
    requires Proper(minSize, ops)
    ensures var p := After(minSize, ops).pool;
            p.minSize == minSize && Ledger(p, Draws(minSize, ops), Reused(minSize, ops), Freed(ops))
  {
    if ops != [] {
      hide Ledger, Partition, Proper, Allowed;
      var n := |ops| - 1;
      var front := ops[..n];
      var u := After(minSize, front);
      ProperFront(minSize, ops);
      RunKeeps(minSize, front);
      ReuseKeeps(minSize, front);
      if ops[n].Alloc? {
        LedgerTake(u.pool, u.live, Draws(minSize, front), Reused(minSize, front), Freed(front));
        assert Freed(front) + [] == Freed(front);
      } else {
        LedgerGive(u.pool, Draws(minSize, front), Reused(minSize, front), Freed(front), ops[n].value);
        assert Draws(minSize, front) + [] == Draws(minSize, front) && Reused(minSize, front) + [] == Reused(minSize, front);
      }
    }
  }

  /** Values come back in the order they were freed. */
  lemma ReusedInOrder(minSize: int, ops: seq<Op>)
    requires Proper(minSize, ops)
    ensures Reused(minSize, ops) <= Freed(ops)
  {
    ReuseKeeps(minSize, ops);
  }

  /** None comes back before all values below the minimum size have been handed out. */
  lemma NoneReusedEarly(minSize: int, ops: seq<Op>, v: int)
    requires Proper(minSize, ops) && Reused(minSize, ops) != [] && 0 <= v < minSize
    ensures v in Draws(minSize, ops)
  {
    ReuseKeeps(minSize, ops);
  }

  // ------------------------------------------------------------- the linked list

  class Node {
    const value: int
    var next: Node?

    constructor (value: int)
      ensures this.value == value && next == null
    {
      this.value := value;
      next := null;
    }
  }

  class IntPool {
    const minSize: int
    var active: int
    var nextValue: int
    var head: Node?
    var tail: Node?
    /** The free list from head to tail. */
    ghost var nodes: seq<Node>

    ghost predicate Valid()
      reads this, nodes
    {
      && (forall i, j :: 0 <= i < j < |nodes| ==> nodes[i] != nodes[j])
      && head == (if nodes == [] then null else nodes[0])
      && tail == (if nodes == [] then null else nodes[|nodes| - 1])
      && (forall i :: 0 <= i < |nodes| - 1 ==> nodes[i].next == nodes[i + 1])
      && (nodes != [] ==> nodes[|nodes| - 1].next == null)
    }

    ghost function State(): Pool
      reads this
    {
      Pool(minSize, nextValue, seq(|nodes|, i requires 0 <= i < |nodes| reads this => nodes[i].value), active)
    }

    constructor (size: int)
      ensures Valid() && State() == Pool(size, 0, [], 0) && nodes == []
    {
      minSize, active, nextValue, head, tail, nodes := size, 0, 0, null, null, [];
    }

    /** guac_pool_next_int. */
    method NextInt() returns (value: int)
      requires Valid()
      modifies this
      ensures Valid() && Drawn(value, State()) == Take(old(State()))
      ensures forall n :: n in nodes ==> n in old(nodes)
    {
      active := active + 1;
      if head == null || nextValue < minSize {
        value := nextValue;
        nextValue := nextValue + 1;
        return;
      }
      value := head.value;
      if tail == head {
        head, tail := null, null;
      } else {
        head := head.next;
      }
      nodes := nodes[1..];
    }

    /** guac_pool_free_int. */
    method FreeInt(value: int)
      requires Valid()
      modifies this, nodes
      ensures Valid() && State() == Give(old(State()), value)
      ensures forall n :: n in nodes ==> n in old(nodes) || fresh(n)
    {
      var node := new Node(value);
      active := active - 1;
      if tail == null {
        head, tail := node, node;
      } else {
        tail.next := node;
        tail := node;
      }
      nodes := nodes + [node];
    }
  }

  // ------------------------------------------------------------ client resources

  const MAX_STREAMS: nat := 64
  const CLOSED_STREAM_INDEX: int := -1

  /** The wire index of the stream in a slot. */
  function StreamIndex(slot: int): int { slot * 2 + 1 }

  class Client {
    const streamPool: IntPool
    /** The wire index of each stream slot. */
    const outputStreams: array<int>

    ghost function OpenSlots(): set<int>
      reads this, outputStreams
    {
      set s | 0 <= s < outputStreams.Length && outputStreams[s] != CLOSED_STREAM_INDEX
    }

    /** The streams in use are those not marked closed, each with the odd index of
        its slot. */
    ghost predicate Valid()
      reads this, streamPool, streamPool.nodes, outputStreams
    {
      && streamPool.Valid() && outputStreams.Length == MAX_STREAMS
      && streamPool.minSize == 0 && streamPool.nextValue <= MAX_STREAMS
      && Partition(streamPool.State(), OpenSlots())
      && forall s :: 0 <= s < MAX_STREAMS ==> outputStreams[s] == CLOSED_STREAM_INDEX || outputStreams[s] == StreamIndex(s)
    }

    constructor ()
      ensures Valid() && OpenSlots() == {}
    {
      streamPool := new IntPool(0);
      outputStreams := new int[MAX_STREAMS](_ => CLOSED_STREAM_INDEX);
      new;
      assert OpenSlots() == {};
    }

    /** guac_client_alloc_stream. Fails exactly when all slots are open; the slot
        given was closed and is within the array. */
    method AllocStream() returns (slot: int)
      requires Valid()
      modifies streamPool, outputStreams
      ensures Valid() && (slot == -1 <==> forall s :: 0 <= s < MAX_STREAMS ==> s in old(OpenSlots()))
      ensures slot == -1 ==> OpenSlots() == old(OpenSlots())
      ensures slot != -1 ==>
                && 0 <= slot < MAX_STREAMS && slot !in old(OpenSlots()) && OpenSlots() == old(OpenSlots()) + {slot}
                && outputStreams[slot] == StreamIndex(slot)
    {
      hide Partition, Take;
      TakeIsSmall(streamPool.State(), OpenSlots(), MAX_STREAMS);
      if streamPool.active == MAX_STREAMS {
        return -1;
      }
      TakeKeeps(streamPool.State(), OpenSlots());
      slot := streamPool.NextInt();
      outputStreams[slot] := StreamIndex(slot);
      assert OpenSlots() == old(OpenSlots()) + {slot};
    }

    /** guac_client_free_stream. The slot closes, and no other; freeing a stream that is
        closed already puts -1 into the pool, which ruins it. */
    method FreeStream(slot: int)
      requires Valid() && 0 <= slot < MAX_STREAMS
      modifies streamPool, streamPool.nodes, outputStreams
      ensures Valid() <==> slot in old(OpenSlots())
      ensures OpenSlots() == old(OpenSlots()) - {slot}
      ensures streamPool.State() == Give(old(streamPool.State()), if slot in old(OpenSlots()) then slot else -1)
    {
      hide Partition;
      if slot in OpenSlots() {
        GiveKeeps(streamPool.State(), OpenSlots(), slot);
      } else {
        GiveRuins(streamPool.State(), OpenSlots());
      }
      streamPool.FreeInt((outputStreams[slot] - 1) / 2);
      outputStreams[slot] := CLOSED_STREAM_INDEX;
      assert OpenSlots() == old(OpenSlots()) - {slot};
    }
  }
}
