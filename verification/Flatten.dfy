/** Flattening the layers of a display into one frame (src/guacenc/
    display-flatten.c, display-layers.c). */
module Flatten {

  const MAX_LAYERS: nat := 64
  const NO_PARENT: int := -1

  /** The entry of an unallocated layer in the render order. */
  const NO_LAYER: int := -1

  /** Pictures as terms: what was painted on what, where and how strongly.
      Nothing is assumed about painting. */
  datatype Picture =
    | Drawn(id: nat)
    | Painted(under: Picture, over: Picture, x: int, y: int, opacity: int)

  /** The contents of a buffer; one without pixels has no surface. */
  datatype Buffer = Empty | Image(picture: Picture)

  datatype Layer = Layer(buffer: Buffer, parent: int, x: int, y: int, z: int, opacity: int)

  datatype Option<T> = None | Some(value: T)

  /** guacenc_layer_alloc, as used for the layer of the given index. */
  function NewLayer(index: nat): Layer {
    Layer(Empty, if index == 0 then NO_PARENT else 0, 0, 0, 0, 255)
  }

  /** Painting a layer's frame onto that of its parent, if both have pixels. */
  function Paint(dst: Buffer, src: Buffer, layer: Layer): Buffer {
    if src.Empty? || dst.Empty? then dst
    else Image(Painted(dst.picture, src.picture, layer.x, layer.y, layer.opacity))
  }

  predicate IsIndex(i: int) { 0 <= i < MAX_LAYERS }

  /** Parent links do not form a cycle: each leads to a layer of lower rank. */
  predicate Acyclic(tree: seq<Layer>, rank: seq<nat>) {
    && |tree| == |rank| == MAX_LAYERS
    && forall i :: 0 <= i < |tree| && IsIndex(tree[i].parent) ==> rank[tree[i].parent] < rank[i]
  }

  // -------------------------------------------------- the recursive composition

  /** Is this entry of the render order a visible child of layer i? */
  predicate IsKid(tree: seq<Layer>, e: int, i: nat)
    requires |tree| == MAX_LAYERS
  {
    IsIndex(e) && tree[e].parent == i && tree[e].opacity != 0
  }

  /** The visible children of layer i, in render order. */
  function Kids(tree: seq<Layer>, order: seq<int>, i: nat): (r: seq<nat>)
    requires |tree| == MAX_LAYERS
    ensures forall k :: 0 <= k < |r| ==> IsKid(tree, r[k], i)
  {
    if order == [] then []
    else
      var e := order[|order| - 1];
      var kids := Kids(tree, order[..|order| - 1], i);
      if IsKid(tree, e, i) then kids + [e] else kids
  }

  function MaxRank(rank: seq<nat>): (m: nat)
    ensures forall i :: 0 <= i < |rank| ==> rank[i] <= m
  {
    if rank == [] then 0
    else
      var m := MaxRank(rank[1..]);
      assert forall i :: 1 <= i < |rank| ==> rank[i] == rank[1..][i - 1];
      if rank[0] > m then rank[0] else m
  }

  /** What the frame of a layer should show: its own buffer, and painted on it
      in turn what the frames of its visible children should show. */
  function Composite(tree: seq<Layer>, rank: seq<nat>, order: seq<int>, i: nat): Buffer
    requires Acyclic(tree, rank) && i < MAX_LAYERS
    decreases MaxRank(rank) - rank[i], 1, 0
  {
    WithKids(tree, rank, order, i, Kids(tree, order, i))
  }

  function WithKids(tree: seq<Layer>, rank: seq<nat>, order: seq<int>, i: nat, kids: seq<nat>): Buffer
    requires Acyclic(tree, rank) && i < MAX_LAYERS
    requires forall k :: 0 <= k < |kids| ==> IsKid(tree, kids[k], i)
    decreases MaxRank(rank) - rank[i], 0, |kids|
  {
    if kids == [] then tree[i].buffer
    else
      var last := kids[|kids| - 1];
      assert IsKid(tree, last, i);
      Paint(WithKids(tree, rank, order, i, kids[..|kids| - 1]), Composite(tree, rank, order, last), tree[last])
  }

  // ------------------------------------------------------------ the render order

  /** guacenc_display_get_depth. */
  function Depth(tree: seq<Layer>, rank: seq<nat>, i: nat): nat
    requires Acyclic(tree, rank) && i < MAX_LAYERS
    decreases rank[i]
  {
    var p := tree[i].parent;
    if p == NO_PARENT then 0
    else if IsIndex(p) then Depth(tree, rank, p) + 1
    else 1
  }

  /** The sign of guacenc_display_layer_comparator: unallocated layers last, then
      deepest first, siblings together, and siblings by descending Z. */
  function Comparison(tree: seq<Layer>, rank: seq<nat>, a: int, b: int): int
    requires Acyclic(tree, rank) && a < MAX_LAYERS && b < MAX_LAYERS
  {
    if a < 0 then if b < 0 then 0 else 1
    else if b < 0 then -1
    else
      var da, db := Depth(tree, rank, a), Depth(tree, rank, b);
      if db != da then db - da
      else if tree[b].parent != tree[a].parent then tree[b].parent - tree[a].parent
      else tree[b].z - tree[a].z
  }

  predicate Entries(order: seq<int>) {
    forall k :: 0 <= k < |order| ==> order[k] == NO_LAYER || IsIndex(order[k])
  }

  /** What qsort promises with this comparator. */
  predicate Sorted(tree: seq<Layer>, rank: seq<nat>, order: seq<int>)
    requires Acyclic(tree, rank) && Entries(order)
  {
    forall j, k :: 0 <= j < k < |order| ==> Comparison(tree, rank, order[j], order[k]) <= 0
  }

  lemma ComparisonIsOrder(tree: seq<Layer>, rank: seq<nat>, a: int, b: int, c: int)
    requires Acyclic(tree, rank) && a < MAX_LAYERS && b < MAX_LAYERS && c < MAX_LAYERS
    ensures Comparison(tree, rank, a, b) > 0 ==> Comparison(tree, rank, b, a) <= 0
    ensures Comparison(tree, rank, a, b) <= 0 && Comparison(tree, rank, b, c) <= 0 ==> Comparison(tree, rank, a, c) <= 0
  {
    hide Depth, Acyclic;
  }

  lemma ChildIsDeeper(tree: seq<Layer>, rank: seq<nat>, c: nat, p: nat)
    requires Acyclic(tree, rank) && c < MAX_LAYERS && p < MAX_LAYERS && tree[c].parent == p
    ensures Depth(tree, rank, c) == Depth(tree, rank, p) + 1
  {
  }

  /** In a sorted order no child comes after its parent. */
  lemma KidsComeFirst(tree: seq<Layer>, rank: seq<nat>, order: seq<int>, j: nat, k: nat)
    requires Acyclic(tree, rank) && Entries(order) && Sorted(tree, rank, order)
    requires j <= k < |order| && IsIndex(order[j]) && IsIndex(order[k])
    ensures tree[order[k]].parent != order[j]
  {
    hide Depth;
    if j < k {
      assert Comparison(tree, rank, order[j], order[k]) <= 0;
      assert Depth(tree, rank, order[k]) <= Depth(tree, rank, order[j]);
      if tree[order[k]].parent == order[j] {
        ChildIsDeeper(tree, rank, order[k], order[j]);
      }
    }
  }

  lemma AcyclicSize(tree: seq<Layer>, rank: seq<nat>)
    requires Acyclic(tree, rank)
    ensures |tree| == |rank| == MAX_LAYERS
  {
  }

  lemma KidsSkip(tree: seq<Layer>, order: seq<int>, k: nat, i: nat)
    requires |tree| == MAX_LAYERS && k < |order| && !IsKid(tree, order[k], i)
    ensures Kids(tree, order[..k + 1], i) == Kids(tree, order[..k], i)
  {
    assert order[..k + 1][..k] == order[..k];
  }

  /** When a layer's turn comes, all its children have had theirs. */
  lemma {:induction false} KidsAreDone(tree: seq<Layer>, rank: seq<nat>, order: seq<int>, j: nat, k: nat)
    requires Acyclic(tree, rank) && Entries(order) && Sorted(tree, rank, order)
    requires j < |order| && IsIndex(order[j]) && j <= k <= |order|
    ensures Kids(tree, order[..j], order[j]) == Kids(tree, order[..k], order[j])
    decreases k
  {
    hide Kids, Sorted, Acyclic, Entries;
    AcyclicSize(tree, rank);
    if j < k {
      KidsAreDone(tree, rank, order, j, k - 1);
      if IsIndex(order[k - 1]) {
        KidsComeFirst(tree, rank, order, j, k - 1);
      }
      KidsSkip(tree, order, k - 1, order[j]);
    }
  }

  /** The children painted are exactly the visible children among the layers, as
      often as they occur. */
  lemma {:induction false} KidsAreChildren(tree: seq<Layer>, order: seq<int>, i: nat)
    requires |tree| == MAX_LAYERS
    ensures forall e: nat :: multiset(Kids(tree, order, i))[e] == if IsKid(tree, e, i) then multiset(order)[e] else 0
  {
    if order != [] {
      var n := |order| - 1;
      KidsAreChildren(tree, order[..n], i);
      assert order == order[..n] + [order[n]];
    }
  }

  predicate DescendingZ(tree: seq<Layer>, kids: seq<nat>) {
    && (forall k :: 0 <= k < |kids| ==> kids[k] < |tree|)
    && forall j, k :: 0 <= j < k < |kids| ==> tree[kids[j]].z >= tree[kids[k]].z
  }

  lemma SiblingsByZ(tree: seq<Layer>, rank: seq<nat>, order: seq<int>, j: nat, k: nat, i: nat)
    requires Acyclic(tree, rank) && Entries(order) && Sorted(tree, rank, order) && i < MAX_LAYERS
    requires j < k < |order| && IsKid(tree, order[j], i) && IsKid(tree, order[k], i)
    ensures tree[order[j]].z >= tree[order[k]].z
  {
    hide Depth;
    ChildIsDeeper(tree, rank, order[j], i);
    ChildIsDeeper(tree, rank, order[k], i);
    assert Comparison(tree, rank, order[j], order[k]) <= 0;
  }

  /** Children are painted in descending order of Z. */
  lemma {:induction false} KidsDescend(tree: seq<Layer>, rank: seq<nat>, order: seq<int>, i: nat)
    requires Acyclic(tree, rank) && Entries(order) && Sorted(tree, rank, order) && i < MAX_LAYERS
    ensures DescendingZ(tree, Kids(tree, order, i))
  {
    if order != [] {
      hide Acyclic, Comparison;
      var n := |order| - 1;
      var rest, e := order[..n], order[n];
      KidsDescend(tree, rank, rest, i);
      var kids := Kids(tree, rest, i);
      assert Kids(tree, order, i) == if IsKid(tree, e, i) then kids + [e] else kids;
      if IsKid(tree, e, i) {
        forall j | 0 <= j < |kids| ensures tree[kids[j]].z >= tree[e].z {
          KidsAreChildren(tree, rest, i);
          assert kids[j] in multiset(kids);
          var at :| 0 <= at < n && order[at] == kids[j];
          SiblingsByZ(tree, rank, order, at, n, i);
        }
      }
    }
  }

  // ------------------------------------------------------------------ the display

  /** Allocating layers leaves those already allocated alone. */
  predicate Kept(before: seq<Option<Layer>>, after: seq<Option<Layer>>) {
    |before| == |after| && forall i :: 0 <= i < |before| && before[i].Some? ==> after[i] == before[i]
  }

  ghost function TreeOf(layers: seq<Option<Layer>>): (tree: seq<Layer>)
    ensures |tree| == |layers|
  {
    seq(|layers|, i requires 0 <= i < |layers| => if layers[i].Some? then layers[i].value else NewLayer(i))
  }

  lemma InsertedIsSorted(tree: seq<Layer>, rank: seq<nat>, order: seq<int>, e: int, k: nat)
    requires Acyclic(tree, rank) && Entries(order) && Sorted(tree, rank, order) && k <= |order|
    requires e == NO_LAYER || IsIndex(e)
    requires forall j :: k <= j < |order| ==> Comparison(tree, rank, e, order[j]) <= 0
    requires k > 0 ==> Comparison(tree, rank, order[k - 1], e) <= 0
    ensures Entries(order[..k] + [e] + order[k..]) && Sorted(tree, rank, order[..k] + [e] + order[k..])
  {
    hide Comparison, Acyclic;
    if k > 0 {
      forall j | 0 <= j < k ensures Comparison(tree, rank, order[j], e) <= 0 {
        ComparisonIsOrder(tree, rank, order[j], order[k - 1], e);
      }
    }
  }

  /** The frame of layer i after the first k entries of the order. */
  ghost function Painting(tree: seq<Layer>, rank: seq<nat>, order: seq<int>, k: nat, i: nat): Buffer
    requires Acyclic(tree, rank) && k <= |order| && i < MAX_LAYERS
  {
    WithKids(tree, rank, order, i, Kids(tree, order[..k], i))
  }

  lemma NothingPainted(tree: seq<Layer>, rank: seq<nat>, order: seq<int>, i: nat)
    requires Acyclic(tree, rank) && i < MAX_LAYERS
    ensures Painting(tree, rank, order, 0, i) == tree[i].buffer
  {
  }

  lemma AllPainted(tree: seq<Layer>, rank: seq<nat>, order: seq<int>, i: nat)
    requires Acyclic(tree, rank) && i < MAX_LAYERS
    ensures Painting(tree, rank, order, |order|, i) == Composite(tree, rank, order, i)
  {
    assert order[..|order|] == order;
  }

  /** One entry's turn: its frame is finished by then, and is painted onto the
      frame of its parent. */
  lemma PaintedOneMore(tree: seq<Layer>, rank: seq<nat>, order: seq<int>, k: nat, i: nat)
    requires Acyclic(tree, rank) && Entries(order) && Sorted(tree, rank, order) && k < |order| && i < MAX_LAYERS
    ensures Painting(tree, rank, order, k + 1, i) ==
            if IsKid(tree, order[k], i)
            then Paint(Painting(tree, rank, order, k, i), Painting(tree, rank, order, k, order[k]), tree[order[k]])
            else Painting(tree, rank, order, k, i)
  {
    var e := order[k];
    assert order[..k + 1][..k] == order[..k];
    assert Kids(tree, order[..k + 1], i) ==
           if IsKid(tree, e, i) then Kids(tree, order[..k], i) + [e] else Kids(tree, order[..k], i);
    if IsKid(tree, e, i) {
      KidsAreDone(tree, rank, order, k, |order|);
      assert order[..|order|] == order;
      var kids := Kids(tree, order[..k], i);
      assert (kids + [e])[..|kids|] == kids && (kids + [e])[|kids|] == e;
      assert Painting(tree, rank, order, k, e) == Composite(tree, rank, order, e);
      assert IsKid(tree, (kids + [e])[|kids|], i);
    }
  }

  class Display {
    var layers: seq<Option<Layer>>
    /** The frame buffer of each layer; empty for layers not allocated. */
    var frames: seq<Buffer>

    ghost predicate Valid()
      reads this
    {
      && |layers| == |frames| == MAX_LAYERS
      && forall i :: 0 <= i < MAX_LAYERS && layers[i].None? ==> frames[i].Empty?
    }

    /** The layers, those not allocated yet as they would be allocated. */
    ghost function Tree(): (tree: seq<Layer>)
      requires |layers| == MAX_LAYERS
      reads this
      ensures |tree| == MAX_LAYERS
    {
      TreeOf(layers)
    }

    /** guacenc_display_get_layer. */
    method GetLayer(index: int) returns (found: bool)
      requires Valid()
      modifies this`layers
      ensures Valid() && Tree() == old(Tree()) && found == IsIndex(index)
      ensures found ==> layers[index] == Some(Tree()[index])
      ensures Kept(old(layers), layers)
    {
      if index < 0 || index >= MAX_LAYERS {
        return false;
      }
      if layers[index].None? {
        layers := layers[index := Some(NewLayer(index))];
      }
      found := true;
    }

    /** guacenc_display_get_depth, for the layer of the given index. */
    method GetDepth(index: nat, ghost rank: seq<nat>) returns (depth: nat)
      requires Valid() && Acyclic(Tree(), rank) && index < MAX_LAYERS && layers[index].Some?
      modifies this`layers
      ensures Valid() && Tree() == old(Tree()) && depth == Depth(Tree(), rank, index)
      ensures Kept(old(layers), layers)
      decreases rank[index]
    {
      var parent := layers[index].value.parent;
      if parent == NO_PARENT {
        return 0;
      }
      var found := GetLayer(parent);
      if !found {
        return 1;
      }
      assert Tree()[index].parent == parent;
      var d := GetDepth(parent, rank);
      depth := d + 1;
    }

    /** guacenc_display_layer_comparator. */
    method Compare(a: int, b: int, ghost rank: seq<nat>) returns (c: int)
      requires Valid() && Acyclic(Tree(), rank)
      requires a == NO_LAYER || (IsIndex(a) && layers[a].Some?)
      requires b == NO_LAYER || (IsIndex(b) && layers[b].Some?)
      modifies this`layers
      ensures Valid() && Tree() == old(Tree()) && c == Comparison(Tree(), rank, a, b)
      ensures Kept(old(layers), layers)
    {
      hide Depth, Acyclic;
      if a == NO_LAYER {
        return if b == NO_LAYER then 0 else 1;
      }
      if b == NO_LAYER {
        return -1;
      }
      var aDepth: int := GetDepth(a, rank);
      var bDepth: int := GetDepth(b, rank);
      if bDepth != aDepth {
        return bDepth - aDepth;
      }
      var aLayer, bLayer := layers[a].value, layers[b].value;
      if bLayer.parent != aLayer.parent {
        return bLayer.parent - aLayer.parent;
      }
      c := bLayer.z - aLayer.z;
    }

    ghost predicate Allocated(order: seq<int>)
      requires |layers| == MAX_LAYERS
      reads this
    {
      Entries(order) && forall k :: 0 <= k < |order| && order[k] != NO_LAYER ==> layers[order[k]].Some?
    }

    /** Find where an entry belongs in a sorted order. */
    method FindPlace(order: seq<int>, e: int, ghost rank: seq<nat>) returns (k: nat)
      requires Valid() && Acyclic(Tree(), rank) && Allocated(order) && Allocated([e])
      modifies this`layers
      ensures Valid() && Tree() == old(Tree()) && Kept(old(layers), layers) && k <= |order| && e < MAX_LAYERS
      ensures forall j :: k <= j < |order| ==> Comparison(Tree(), rank, e, order[j]) <= 0
      ensures k > 0 ==> Comparison(Tree(), rank, order[k - 1], e) <= 0
    {
      hide Depth, Acyclic, Comparison, TreeOf;
      ghost var tree := Tree();
      k := |order|;
      assert [e][0] == e;
      while k > 0
        invariant k <= |order| && Valid() && Tree() == tree && Kept(old(layers), layers)
        invariant forall j :: k <= j < |order| ==> Comparison(tree, rank, e, order[j]) <= 0
      {
        var c := Compare(order[k - 1], e, rank);
        if c <= 0 {
          break;
        }
        ComparisonIsOrder(tree, rank, order[k - 1], e, e);
        k := k - 1;
      }
    }

    /** Insert an entry into a sorted order. */
    method Insert(order: seq<int>, e: int, ghost rank: seq<nat>) returns (r: seq<int>)
      requires Valid() && Acyclic(Tree(), rank) && Allocated(order) && Allocated([e]) && Sorted(Tree(), rank, order)
      modifies this`layers
      ensures Valid() && Tree() == old(Tree()) && Allocated(r) && Sorted(Tree(), rank, r)
      ensures multiset(r) == multiset(order + [e])
      ensures Kept(old(layers), layers)
    {
      hide Depth, Acyclic, Comparison, Sorted, TreeOf;
      var k := FindPlace(order, e, rank);
      r := order[..k] + [e] + order[k..];
      assert order == order[..k] + order[k..];
      assert [e][0] == e;
      InsertedIsSorted(Tree(), rank, order, e, k);
    }

    /** qsort on the render order. */
    method Sort(entries: seq<int>, ghost rank: seq<nat>) returns (order: seq<int>)
      requires Valid() && Acyclic(Tree(), rank) && Allocated(entries)
      modifies this`layers
      ensures Valid() && Tree() == old(Tree()) && Entries(order) && Sorted(Tree(), rank, order)
      ensures multiset(order) == multiset(entries)
      ensures Kept(old(layers), layers)
    {
      hide Depth, Acyclic, Comparison, TreeOf;
      order := [];
      for k := 0 to |entries|
        invariant Valid() && Tree() == old(Tree()) && Allocated(order) && Allocated(entries)
        invariant Sorted(Tree(), rank, order) && multiset(order) == multiset(entries[..k])
        invariant Kept(old(layers), layers)
      {
        order := Insert(order, entries[k], rank);
        assert entries[..k + 1] == entries[..k] + [entries[k]];
      }
      assert entries[..|entries|] == entries;
    }

    /** The first loop: every frame starts as a copy of its layer's buffer. */
    method ResetFrames(order: seq<int>)
      requires Valid() && Entries(order)
      requires forall i :: 0 <= i < MAX_LAYERS && layers[i].Some? && i !in order ==> layers[i].value.buffer == frames[i]
      requires forall k :: 0 <= k < |order| && order[k] != NO_LAYER ==> layers[order[k]].Some?
      modifies this`frames
      ensures Valid() && forall i :: 0 <= i < MAX_LAYERS ==> frames[i] == Tree()[i].buffer
    {
      for k := 0 to |order|
        invariant Valid()
        invariant forall i :: 0 <= i < MAX_LAYERS && layers[i].Some? && i !in order[k..] ==> layers[i].value.buffer == frames[i]
      {
        var e := order[k];
        assert forall i :: i in order[k..] <==> i == e || i in order[k + 1..];
        if e == NO_LAYER {
          continue;
        }
        frames := frames[e := layers[e].value.buffer];
      }
    }

    /** The second loop. On any order qsort may give, every frame ends up as the
        recursive composition of its layer. */
    method RenderLayers(order: seq<int>, ghost rank: seq<nat>)
      requires Valid() && Acyclic(Tree(), rank) && Entries(order) && Sorted(Tree(), rank, order)
      requires forall k :: 0 <= k < |order| && order[k] != NO_LAYER ==> layers[order[k]].Some?
      requires forall i :: 0 <= i < MAX_LAYERS ==> frames[i] == Tree()[i].buffer
      modifies this
      ensures Valid() && Tree() == old(Tree())
      ensures forall i :: 0 <= i < MAX_LAYERS ==> frames[i] == Composite(Tree(), rank, order, i)
    {
      hide Composite, WithKids, Kids, Sorted, Acyclic;
      ghost var tree := Tree();
      forall i | 0 <= i < MAX_LAYERS ensures frames[i] == Painting(tree, rank, order, 0, i) {
        NothingPainted(tree, rank, order, i);
      }
      for k := 0 to |order|
        invariant Valid() && Tree() == tree
        invariant forall j :: 0 <= j < |order| && order[j] != NO_LAYER ==> layers[order[j]] == Some(tree[order[j]])
        invariant forall i :: 0 <= i < MAX_LAYERS ==> frames[i] == Painting(tree, rank, order, k, i)
      {
        var e := order[k];
        ghost var before := frames;
        forall i | 0 <= i < MAX_LAYERS
          ensures Painting(tree, rank, order, k + 1, i) ==
                  if IsKid(tree, e, i) then Paint(before[i], before[e], tree[e]) else before[i]
        {
          PaintedOneMore(tree, rank, order, k, i);
        }
        if e == NO_LAYER || layers[e].value.opacity == 0 || layers[e].value.parent == NO_PARENT {
          continue;
        }
        var layer := layers[e].value;
        var found := GetLayer(layer.parent);
        if !found {
          continue;
        }
        frames := frames[layer.parent := Paint(frames[layer.parent], frames[e], layer)];
      }
      forall i | 0 <= i < MAX_LAYERS ensures frames[i] == Composite(tree, rank, order, i) {
        AllPainted(tree, rank, order, i);
      }
    }

    /** guacenc_display_flatten, up to the mouse cursor. */
    method Render(ghost rank: seq<nat>) returns (order: seq<int>)
      requires Valid() && Acyclic(Tree(), rank)
      modifies this
      ensures Valid() && Tree() == old(Tree()) && Entries(order) && Sorted(Tree(), rank, order)
      ensures forall i :: 0 <= i < MAX_LAYERS ==> multiset(order)[i] == if old(layers)[i].Some? then 1 else 0
      ensures forall i :: 0 <= i < MAX_LAYERS ==> frames[i] == Composite(Tree(), rank, order, i)
    {
      hide Composite, Comparison, Acyclic, Sorted;
      var entries: seq<int> := [];
      for i := 0 to MAX_LAYERS
        invariant |entries| == i && Allocated(entries)
        invariant forall e: nat :: multiset(entries)[e] == if e < i && layers[e].Some? then 1 else 0
      {
        entries := entries + [if layers[i].Some? then i else NO_LAYER];
      }
      order := Sort(entries, rank);
      forall i | 0 <= i < MAX_LAYERS && layers[i].Some? && i !in order ensures layers[i].value.buffer == frames[i] {
        assert i !in multiset(order) && Tree()[i] == old(Tree())[i];
      }
      forall k | 0 <= k < |order| && order[k] != NO_LAYER ensures layers[order[k]].Some? {
        assert order[k] in multiset(order);
      }
      ResetFrames(order);
      RenderLayers(order, rank);
    }
  }
}
