/** Where the pixels of a layer appear in a flattened display
    (src/guacenc/display-flatten.c). */
module Placement {
  import opened Flatten

  /** What a picture shows at a point: pixels of what was drawn, in the order they were
      painted over each other, each with the opacities it was painted with. */
  datatype Leaf = Leaf(id: nat, x: int, y: int, through: seq<int>)

  function Leaves(p: Picture, x: int, y: int, through: seq<int>): seq<Leaf> {
    match p
    case Drawn(id) => [Leaf(id, x, y, through)]
    case Painted(under, over, dx, dy, opacity) =>
      Leaves(under, x, y, through) + Leaves(over, x - dx, y - dy, through + [opacity])
  }

  function Shown(b: Buffer, x: int, y: int, through: seq<int>): seq<Leaf> {
    if b.Empty? then [] else Leaves(b.picture, x, y, through)
  }

  /** The way from a layer up to one of its ancestors: the sum of the offsets, and the
      opacities from the top down. */
  datatype Way = Way(dx: int, dy: int, opacities: seq<int>)

  /** Layer j is layer i, or hangs below it through visible layers, all with pixels. */
  predicate Descends(tree: seq<Layer>, rank: seq<nat>, j: int, i: nat)
    requires Acyclic(tree, rank)
    decreases if IsIndex(j) then rank[j] else 0
  {
    && IsIndex(j) && tree[j].buffer.Image?
    && (j == i || (IsIndex(tree[j].parent) && tree[j].opacity != 0 && Descends(tree, rank, tree[j].parent, i)))
  }

  function WayUp(tree: seq<Layer>, rank: seq<nat>, j: int, i: nat): Way
    requires Acyclic(tree, rank) && Descends(tree, rank, j, i)
    decreases rank[j]
  {
    if j == i then Way(0, 0, [])
    else
      var w := WayUp(tree, rank, tree[j].parent, i);
      Way(w.dx + tree[j].x, w.dy + tree[j].y, w.opacities + [tree[j].opacity])
  }

  /** Every layer shows a picture of its own, if any. */
  predicate OwnPictures(tree: seq<Layer>) {
    forall i :: 0 <= i < |tree| ==> tree[i].buffer.Empty? || tree[i].buffer == Image(Drawn(i))
  }

  /** The pixel of layer j that shows at (x, y) of layer i. */
  function LeafOf(tree: seq<Layer>, rank: seq<nat>, j: int, i: nat, x: int, y: int, through: seq<int>): Leaf
    requires Acyclic(tree, rank) && Descends(tree, rank, j, i)
  {
    var w := WayUp(tree, rank, j, i);
    Leaf(j, x - w.dx, y - w.dy, through + w.opacities)
  }

  lemma {:induction false} DescendsRank(tree: seq<Layer>, rank: seq<nat>, j: int, i: nat)
    requires Acyclic(tree, rank) && Descends(tree, rank, j, i) && i < MAX_LAYERS
    ensures rank[j] >= rank[i] && (j != i ==> rank[j] > rank[i]) && tree[i].buffer.Image?
    decreases rank[j]
  {
    if j != i {
      DescendsRank(tree, rank, tree[j].parent, i);
    }
  }

  /** Ways join: from below a child of layer i up to layer i. */
  lemma {:induction false} DescendsOn(tree: seq<Layer>, rank: seq<nat>, j: int, k: nat, i: nat)
    requires Acyclic(tree, rank) && k < MAX_LAYERS && i < MAX_LAYERS && IsKid(tree, k, i) && tree[i].buffer.Image?
    requires Descends(tree, rank, j, k)
    ensures Descends(tree, rank, j, i) && j != i
    ensures var v, w := WayUp(tree, rank, j, k), WayUp(tree, rank, j, i);
            w == Way(v.dx + tree[k].x, v.dy + tree[k].y, [tree[k].opacity] + v.opacities)
    decreases rank[j]
  {
    DescendsRank(tree, rank, j, k);
    if j != k {
      DescendsOn(tree, rank, tree[j].parent, k, i);
    } else {
      assert WayUp(tree, rank, j, i).opacities == [] + [tree[k].opacity];
    }
  }

  /** A layer below another, but not that itself, is or hangs below one of its children. */
  lemma {:induction false} DescendsThrough(tree: seq<Layer>, rank: seq<nat>, j: int, i: nat) returns (k: nat)
    requires Acyclic(tree, rank) && i < MAX_LAYERS && Descends(tree, rank, j, i) && j != i
    ensures k < MAX_LAYERS && IsKid(tree, k, i) && Descends(tree, rank, j, k)
    decreases rank[j]
  {
    if tree[j].parent == i {
      k := j;
    } else {
      k := DescendsThrough(tree, rank, tree[j].parent, i);
      DescendsRank(tree, rank, tree[j].parent, k);
    }
  }

  // -------------------------------------------------------------- what is shown

  /** Every layer with pixels takes part. */
  predicate AllTakePart(tree: seq<Layer>, order: seq<int>) {
    forall i :: 0 <= i < |tree| && tree[i].buffer.Image? ==> i in order
  }

  /** The leaf belongs to a layer below this child, seen from the layer above. */
  predicate FromKid(tree: seq<Layer>, rank: seq<nat>, k: nat, x: int, y: int, through: seq<int>, l: Leaf)
    requires Acyclic(tree, rank) && k < MAX_LAYERS
  {
    Descends(tree, rank, l.id, k) &&
    l == LeafOf(tree, rank, l.id, k, x - tree[k].x, y - tree[k].y, through + [tree[k].opacity])
  }

  lemma PaintShows(dst: Buffer, src: Buffer, layer: Layer, x: int, y: int, through: seq<int>, l: Leaf)
    ensures l in Shown(Paint(dst, src, layer), x, y, through) <==>
            || l in Shown(dst, x, y, through)
            || (dst.Image? && l in Shown(src, x - layer.x, y - layer.y, through + [layer.opacity]))
  {
  }

  lemma {:induction false} WithKidsIsImage(tree: seq<Layer>, rank: seq<nat>, order: seq<int>, i: nat, kids: seq<nat>)
    requires Acyclic(tree, rank) && i < MAX_LAYERS && forall k :: 0 <= k < |kids| ==> IsKid(tree, kids[k], i)
    ensures WithKids(tree, rank, order, i, kids).Image? <==> tree[i].buffer.Image?
    decreases |kids|
  {
    if kids != [] {
      WithKidsIsImage(tree, rank, order, i, kids[..|kids| - 1]);
    }
  }

  lemma OwnShows(tree: seq<Layer>, i: nat, x: int, y: int, through: seq<int>, l: Leaf)
    requires OwnPictures(tree) && i < |tree|
    ensures l in Shown(tree[i].buffer, x, y, through) <==> tree[i].buffer.Image? && l == Leaf(i, x, y, through)
  {
  }

  lemma RankRises(tree: seq<Layer>, rank: seq<nat>, k: nat, i: nat)
    requires Acyclic(tree, rank) && k < MAX_LAYERS && i < MAX_LAYERS && IsKid(tree, k, i)
    ensures rank[i] < rank[k] <= MaxRank(rank)
  {
  }

  lemma KidUnfolds(tree: seq<Layer>, rank: seq<nat>, k: nat, x: int, y: int, through: seq<int>, l: Leaf)
    requires Acyclic(tree, rank) && k < MAX_LAYERS
    ensures FromKid(tree, rank, k, x, y, through, l) <==>
            Descends(tree, rank, l.id, k) &&
            l == LeafOf(tree, rank, l.id, k, x - tree[k].x, y - tree[k].y, through + [tree[k].opacity])
  {
  }

  lemma WithKidsUnfolds(tree: seq<Layer>, rank: seq<nat>, order: seq<int>, i: nat, kids: seq<nat>)
    requires Acyclic(tree, rank) && i < MAX_LAYERS && kids != [] && forall k :: 0 <= k < |kids| ==> IsKid(tree, kids[k], i)
    ensures var n := |kids| - 1;
            WithKids(tree, rank, order, i, kids) ==
            Paint(WithKids(tree, rank, order, i, kids[..n]), Composite(tree, rank, order, kids[n]), tree[kids[n]])
  {
  }

  lemma {:induction false} KidsShow(tree: seq<Layer>, rank: seq<nat>, order: seq<int>, i: nat, kids: seq<nat>,
                                    x: int, y: int, through: seq<int>, l: Leaf)
    requires Acyclic(tree, rank) && OwnPictures(tree) && AllTakePart(tree, order) && i < MAX_LAYERS
    requires forall k :: 0 <= k < |kids| ==> IsKid(tree, kids[k], i)
    ensures l in Shown(WithKids(tree, rank, order, i, kids), x, y, through) <==>
            && tree[i].buffer.Image?
            && (l == Leaf(i, x, y, through) ||
                exists k :: 0 <= k < |kids| && FromKid(tree, rank, kids[k], x, y, through, l))
    decreases MaxRank(rank) - rank[i], 0, |kids|
  {
    hide FromKid, Shown, LeafOf, Descends, WayUp, Acyclic, Paint;
    AcyclicSize(tree, rank);
    if kids == [] {
      OwnShows(tree, i, x, y, through, l);
    } else {
      var n := |kids| - 1;
      var last := kids[n];
      var under, over := WithKids(tree, rank, order, i, kids[..n]), Composite(tree, rank, order, last);
      RankRises(tree, rank, last, i);
      KidsShow(tree, rank, order, i, kids[..n], x, y, through, l);
      FrameShows(tree, rank, order, last, x - tree[last].x, y - tree[last].y, through + [tree[last].opacity], l);
      WithKidsIsImage(tree, rank, order, i, kids[..n]);
      WithKidsUnfolds(tree, rank, order, i, kids);
      PaintShows(under, over, tree[last], x, y, through, l);
      KidUnfolds(tree, rank, last, x, y, through, l);
      assert forall k :: 0 <= k < n ==> kids[..n][k] == kids[k];
    }
  }

  lemma IsKidInOrder(tree: seq<Layer>, order: seq<int>, k: nat, i: nat) returns (at: nat)
    requires |tree| == MAX_LAYERS && AllTakePart(tree, order) && IsKid(tree, k, i) && tree[k].buffer.Image?
    ensures at < |Kids(tree, order, i)| && Kids(tree, order, i)[at] == k
  {
    KidsAreChildren(tree, order, i);
    assert k in order && k in multiset(order) && k in multiset(Kids(tree, order, i));
    at :| 0 <= at < |Kids(tree, order, i)| && Kids(tree, order, i)[at] == k;
  }

  /** A leaf from a child's frame is a leaf from further up. */
  lemma LeafUp(tree: seq<Layer>, rank: seq<nat>, k: nat, i: nat, x: int, y: int, through: seq<int>, l: Leaf)
    requires Acyclic(tree, rank) && k < MAX_LAYERS && i < MAX_LAYERS && IsKid(tree, k, i) && tree[i].buffer.Image?
    requires Descends(tree, rank, l.id, k)
    ensures Descends(tree, rank, l.id, i) && l.id != i
    ensures FromKid(tree, rank, k, x, y, through, l) <==> l == LeafOf(tree, rank, l.id, i, x, y, through)
  {
    hide Descends, WayUp, Acyclic;
    AcyclicSize(tree, rank);
    DescendsOn(tree, rank, l.id, k, i);
    var v := WayUp(tree, rank, l.id, k);
    assert through + [tree[k].opacity] + v.opacities == through + ([tree[k].opacity] + v.opacities);
  }

  lemma LeafOfItself(tree: seq<Layer>, rank: seq<nat>, i: nat, x: int, y: int, through: seq<int>)
    requires Acyclic(tree, rank) && i < MAX_LAYERS && tree[i].buffer.Image?
    ensures Descends(tree, rank, i, i) && LeafOf(tree, rank, i, i, x, y, through) == Leaf(i, x, y, through)
  {
    assert through + [] == through;
  }

  /** The frame of a layer shows at every point exactly the pixels of the layers that are
      or hang below it, each shifted by the sum of the offsets between, and painted with
      the opacities between. */
  lemma {:induction false} FrameShows(tree: seq<Layer>, rank: seq<nat>, order: seq<int>, i: nat,
                                      x: int, y: int, through: seq<int>, l: Leaf)
    requires Acyclic(tree, rank) && OwnPictures(tree) && AllTakePart(tree, order) && i < MAX_LAYERS
    ensures l in Shown(Composite(tree, rank, order, i), x, y, through) <==>
            Descends(tree, rank, l.id, i) && l == LeafOf(tree, rank, l.id, i, x, y, through)
    decreases MaxRank(rank) - rank[i], 1, 0
  {
    hide FromKid, Shown, LeafOf, Descends, WayUp, WithKids, Acyclic, Kids;
    AcyclicSize(tree, rank);
    var kids := Kids(tree, order, i);
    KidsShow(tree, rank, order, i, kids, x, y, through, l);
    if tree[i].buffer.Image? {
      LeafOfItself(tree, rank, i, x, y, through);
      if Descends(tree, rank, l.id, i) && l.id != i {
        var k := DescendsThrough(tree, rank, l.id, i);
        DescendsRank(tree, rank, l.id, k);
        LeafUp(tree, rank, k, i, x, y, through, l);
        var at := IsKidInOrder(tree, order, k, i);
      }
      forall at | 0 <= at < |kids| && FromKid(tree, rank, kids[at], x, y, through, l)
        ensures Descends(tree, rank, l.id, i) && l == LeafOf(tree, rank, l.id, i, x, y, through)
      {
        KidUnfolds(tree, rank, kids[at], x, y, through, l);
        LeafUp(tree, rank, kids[at], i, x, y, through, l);
      }
    } else if Descends(tree, rank, l.id, i) {
      DescendsRank(tree, rank, l.id, i);
    }
  }
}
