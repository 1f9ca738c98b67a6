/**
 Shallow copies and deep clones of owning edges (`Maybe::copy`,
 `Maybe::clone`, `Any::copy`, `Any::clone`).

 A node's own `copy()` and `clone()` are generated; the model gives them
 the behaviour the runtime documents. A copy is a new node with the same
 payload and the same edges, so it shares its children with the original.
 A clone is a new node with the same payload whose owning edges are cloned
 in turn and whose links are kept as they are, still observing the
 original nodes.

 Both sequence operations build a fresh `Many` by `add`ing the copy of
 every element; `add` ignores an empty source, so empty elements are
 dropped. Like the completeness pass, cloning in the source recurses
 without a guard; the model carries the nodes on the current path and
 reports an owning cycle as NotWellFormed.
 */
module Copying {
  import opened Results
  import opened Graph
  import opened PointerMaps
  import opened Validation
  import opened Containers

  // ---------------------------------------------------------------------
  // Heap growth

  /** `h'` keeps every node of `h` unchanged and allocates only above it. */
  predicate HeapExtends(h: Heap, h': Heap) {
    && h.nodes.Keys <= h'.nodes.Keys
    && (forall k :: k in h.nodes ==> h'.nodes[k] == h.nodes[k])
    && h.next <= h'.next
  }

  /** The nodes allocated on the way from `h` to `h'`. */
  function Fresh(h: Heap, h': Heap): set<NodeId> {
    h'.nodes.Keys - h.nodes.Keys
  }

  /** No node of `s` owns a node outside `s`. */
  predicate SelfContained(h: Heap, s: set<NodeId>) {
    forall k :: k in s && k in h.nodes ==> OwnedTargets(h.nodes[k]) <= s
  }

  lemma ExtendsTrans(h: Heap, h1: Heap, h2: Heap)
    requires HeapExtends(h, h1) && HeapExtends(h1, h2)
    ensures HeapExtends(h, h2)
    ensures Fresh(h, h2) == Fresh(h, h1) + Fresh(h1, h2) && Fresh(h, h1) !! Fresh(h1, h2)
  {
  }

  /** Allocating on top of two self-contained stretches keeps both self-contained. */
  lemma ContainedTrans(h: Heap, h1: Heap, h2: Heap)
    requires HeapExtends(h, h1) && HeapExtends(h1, h2)
    requires SelfContained(h1, Fresh(h, h1)) && SelfContained(h2, Fresh(h1, h2))
    ensures SelfContained(h2, Fresh(h, h2))
  {
    ExtendsTrans(h, h1, h2);
    forall k | k in Fresh(h, h2) && k in h2.nodes ensures OwnedTargets(h2.nodes[k]) <= Fresh(h, h2) {
      if k in h1.nodes {
        assert h2.nodes[k] == h1.nodes[k];
      }
    }
  }

  // ---------------------------------------------------------------------
  // The nodes a sequence edge holds

  predicate AllFilled(xs: seq<Option<NodeId>>) {
    forall i :: 0 <= i < |xs| ==> xs[i].Some?
  }

  /** Adding one slot in front of a vector adds the node it holds, if any. */
  lemma SlotsTargetsCons(y: Option<NodeId>, ys: seq<Option<NodeId>>)
    ensures SlotsTargets(AnyAdd([], y, -1) + ys) == SlotTargets(y) + SlotsTargets(ys)
  {
    if y.Some? {
      assert AnyAdd([], y, -1) == [y] && ([y] + ys)[1..] == ys;
    } else {
      assert AnyAdd([], y, -1) + ys == ys;
    }
  }

  /** On a vector without empty elements, `Filled` just unwraps every element. */
  lemma {:induction false} FilledAllSome(xs: seq<Option<NodeId>>)
    requires AllFilled(xs)
    ensures |Filled(xs)| == |xs|
    ensures forall i :: 0 <= i < |xs| ==> Filled(xs)[i] == xs[i].value
  {
    if xs != [] {
      assert AllFilled(xs[1..]) by {
        forall i | 0 <= i < |xs[1..]| ensures xs[1..][i].Some? {
          assert xs[1..][i] == xs[i + 1];
        }
      }
      FilledAllSome(xs[1..]);
    }
  }

  // ---------------------------------------------------------------------
  // Shallow copy

  /**
   `Maybe::copy()`: an empty edge copies to an empty `One`; a filled one
   allocates a node equal to the referenced one, so the copy owns the same
   children as the original.
   */
  function MaybeCopy(h: Heap, x: Option<NodeId>): (r: (Heap, Option<NodeId>))
    requires SlotIn(h, x)
    ensures HeapExtends(h, r.0)
    ensures r.1.None? <==> x.None?
    ensures x.None? ==> r.0 == h
    ensures r.1.Some? ==>
      && Fresh(h, r.0) == {r.1.value}
      && r.0.nodes[r.1.value] == h.nodes[x.value]
      && OwnedTargets(r.0.nodes[r.1.value]) == OwnedTargets(h.nodes[x.value])
  {
    if x.None? then (h, None) else Make(h, h.nodes[x.value])
  }

  /**
   `ys`, allocated on the way from `h` to `h'`, holds one fresh node per
   filled element of `xs`, in order, each equal to the node it copies.
   */
  predicate CopiesOf(h: Heap, xs: seq<Option<NodeId>>, h': Heap, ys: seq<Option<NodeId>>) {
    && HeapExtends(h, h')
    && |ys| == |Filled(xs)| && AllFilled(ys)
    && SlotsTargets(ys) == Fresh(h, h')
    && (forall i, j :: 0 <= i < j < |ys| ==> ys[i] != ys[j])
    && (forall i :: 0 <= i < |ys| ==>
          ys[i].value in h'.nodes && Filled(xs)[i] in h.nodes && h'.nodes[ys[i].value] == h.nodes[Filled(xs)[i]])
  }

  /**
   `Any::copy()`: a new vector holding a fresh copy of each filled element,
   in order; empty elements are dropped.
   */
  function AnyCopy(h: Heap, xs: seq<Option<NodeId>>): (r: (Heap, seq<Option<NodeId>>))
    requires SlotsTargets(xs) <= h.nodes.Keys
    ensures CopiesOf(h, xs, r.0, r.1)
    decreases |xs|
  {
    if xs == [] then (h, [])
    else
      var (h1, y) := MaybeCopy(h, xs[0]);
      var (h2, ys) := AnyCopy(h1, xs[1..]);
      CopiesOfCons(h, xs, h1, y, h2, ys);
      (h2, AnyAdd([], y, -1) + ys)
  }

  /** Copying the head of a vector, then its tail, copies the whole vector. */
  lemma CopiesOfCons(h: Heap, xs: seq<Option<NodeId>>, h1: Heap, y: Option<NodeId>, h2: Heap, ys: seq<Option<NodeId>>)
    requires xs != [] && SlotsTargets(xs) <= h.nodes.Keys
    requires SlotIn(h, xs[0]) && (h1, y) == MaybeCopy(h, xs[0])
    requires CopiesOf(h1, xs[1..], h2, ys)
    ensures CopiesOf(h, xs, h2, AnyAdd([], y, -1) + ys)
  {
    if y.Some? {
      CopiesOfSome(h, xs, h1, y.value, h2, ys);
      assert AnyAdd([], y, -1) + ys == [y] + ys;
    } else {
      assert AnyAdd([], y, -1) + ys == ys && h1 == h;
      assert Filled(xs) == Filled(xs[1..]);
    }
  }

  lemma CopiesOfSome(h: Heap, xs: seq<Option<NodeId>>, h1: Heap, y: NodeId, h2: Heap, ys: seq<Option<NodeId>>)
    requires xs != [] && xs[0].Some? && SlotsTargets(xs) <= h.nodes.Keys
    requires HeapExtends(h, h1) && Fresh(h, h1) == {y} && xs[0].value in h.nodes && h1.nodes[y] == h.nodes[xs[0].value]
    requires CopiesOf(h1, xs[1..], h2, ys)
    ensures CopiesOf(h, xs, h2, [Some(y)] + ys)
  {
    ExtendsTrans(h, h1, h2);
    FilledOwned(xs[1..]);
    var zs := [Some(y)] + ys;
    var fs := Filled(xs);
    assert fs == [xs[0].value] + Filled(xs[1..]);
    assert SlotsTargets(zs) == {y} + SlotsTargets(ys) by {
      assert zs[1..] == ys;
    }
    forall i | 0 <= i < |zs|
      ensures zs[i].value in h2.nodes && fs[i] in h.nodes && h2.nodes[zs[i].value] == h.nodes[fs[i]]
    {
      if i > 0 {
        assert zs[i] == ys[i - 1] && fs[i] == Filled(xs[1..])[i - 1];
      }
    }
    forall i, j | 0 <= i < j < |zs| ensures zs[i] != zs[j] {
      assert zs[j] == ys[j - 1];
      if i == 0 {
        SlotsTargetsMember(ys, j - 1);
      }
    }
  }

  /** Copying a vector without empty elements copies every element, at its position. */
  lemma AnyCopyKeepsPositions(h: Heap, xs: seq<Option<NodeId>>)
    requires SlotsTargets(xs) <= h.nodes.Keys && AllFilled(xs)
    ensures |AnyCopy(h, xs).1| == |xs|
    ensures forall i :: 0 <= i < |xs| ==>
      xs[i].value in h.nodes && AnyCopy(h, xs).0.nodes[AnyCopy(h, xs).1[i].value] == h.nodes[xs[i].value]
  {
    FilledAllSome(xs);
  }

  /**
   A shallow copy shares children: every child of the original is owned
   by the copy as well, and the copy is a node the original tree does not
   hold.
   */
  lemma CopySharesChildren(h: Heap, c: NodeId, child: NodeId)
    requires c in h.nodes && child in OwnedTargets(h.nodes[c])
    ensures var (h', y) := MaybeCopy(h, Some(c));
      && y.Some? && y.value != c && y.value !in h.nodes
      && child in OwnedTargets(h'.nodes[y.value]) && child in OwnedTargets(h'.nodes[c])
  {
  }

  // ---------------------------------------------------------------------
  // Deep clone

  /** A result of cloning: the heap after allocation and the cloned edge contents. */
  datatype Cloned<T> = Cloned(heap: Heap, val: T)

  /**
   What a clone keeps of an edge: its kind, which single slots are filled,
   one filled element per filled element of a sequence, and the link
   target itself.
   */
  predicate EdgeShape(e: Edge, e': Edge) {
    && e'.Kind() == e.Kind()
    && (e.IsSingle() ==> (e'.target.None? <==> e.target.None?))
    && (e.IsSequence() ==> |e'.elems| == |Filled(e.elems)| && AllFilled(e'.elems))
    && (e.IsLink() ==> e'.link == e.link)
  }

  predicate EdgesShape(es: seq<Edge>, es': seq<Edge>) {
    |es'| == |es| && forall j :: 0 <= j < |es| ==> EdgeShape(es[j], es'[j])
  }

  /** A clone of a node keeps its payload and the shape of each of its edges. */
  predicate NodeShape(n: Node, n': Node) {
    n'.payload == n.payload && EdgesShape(n.edges, n'.edges)
  }

  /** What every successful clone of an edge part ensures about the heap. */
  predicate CloneFrame<T>(h: Heap, d: Cloned<T>) {
    HeapExtends(h, d.heap) && SelfContained(d.heap, Fresh(h, d.heap))
  }

  /**
   `Maybe::clone()`: an empty edge clones to an empty `One`; a filled one
   clones the referenced node's edges, then allocates the copy of the node
   holding them. Reading `h0`, allocating in `h`.
   */
  function CloneSlot(h0: Heap, h: Heap, x: Option<NodeId>, anc: set<NodeId>): (r: Result<Cloned<Option<NodeId>>>)
    requires SlotIn(h0, x)
    ensures r.Err? ==> r.error == NotWellFormed
    ensures x.Some? && x.value in anc ==> r.Err?
    ensures r.Ok? ==>
      && CloneFrame(h, r.value)
      && (r.value.val.None? <==> x.None?)
      && SlotTargets(r.value.val) <= Fresh(h, r.value.heap)
      && (r.value.val.Some? ==> NodeShape(h0.nodes[x.value], r.value.heap.nodes[r.value.val.value]))
    decreases h0.nodes.Keys - anc, 0
  {
    match x
    case None => Ok(Cloned(h, None))
    case Some(c) =>
      if c in anc then Err(NotWellFormed)
      else
        var d :- CloneEdges(h0, h, h0.nodes[c].edges, anc + {c});
        var (h', y) := Make(d.heap, Node(h0.nodes[c].payload, d.val));
        ExtendsTrans(h, d.heap, h');
        Ok(Cloned(h', y))
  }

  /**
   `Any::clone()`: a new vector holding a clone of each filled element, in
   order; empty elements are dropped.
   */
  function CloneSlots(h0: Heap, h: Heap, xs: seq<Option<NodeId>>, anc: set<NodeId>): (r: Result<Cloned<seq<Option<NodeId>>>>)
    requires SlotsTargets(xs) <= h0.nodes.Keys
    ensures r.Err? ==> r.error == NotWellFormed
    ensures r.Ok? ==>
      && CloneFrame(h, r.value)
      && |r.value.val| == |Filled(xs)| && AllFilled(r.value.val)
      && SlotsTargets(r.value.val) <= Fresh(h, r.value.heap)
    decreases h0.nodes.Keys - anc, |xs| + 1
  {
    if xs == [] then Ok(Cloned(h, []))
    else
      var d :- CloneSlot(h0, h, xs[0], anc);
      var ds :- CloneSlots(h0, d.heap, xs[1..], anc);
      ExtendsTrans(h, d.heap, ds.heap);
      ContainedTrans(h, d.heap, ds.heap);
      SlotsTargetsCons(d.val, ds.val);
      Ok(Cloned(ds.heap, AnyAdd([], d.val, -1) + ds.val))
  }

  /**
   The clone of one field: owning edges are cloned, links are kept and
   still observe the original node.
   */
  function CloneEdge(h0: Heap, h: Heap, e: Edge, anc: set<NodeId>): (r: Result<Cloned<Edge>>)
    requires EdgeIn(h0, e)
    ensures r.Err? ==> r.error == NotWellFormed
    ensures e.IsLink() ==> r == Ok(Cloned(h, e))
    ensures r.Ok? ==>
      && CloneFrame(h, r.value)
      && EdgeShape(e, r.value.val)
      && EdgeTargets(r.value.val) <= Fresh(h, r.value.heap)
    decreases h0.nodes.Keys - anc, EdgeRank(e)
  {
    if e.IsSingle() then
      var d :- CloneSlot(h0, h, e.target, anc);
      Ok(Cloned(d.heap, WithTarget(e, d.val)))
    else if e.IsSequence() then
      var d :- CloneSlots(h0, h, e.elems, anc);
      Ok(Cloned(d.heap, WithElems(e, d.val)))
    else
      Ok(Cloned(h, e))
  }

  /** A single edge of the same kind as `e`, holding `y`. */
  function WithTarget(e: Edge, y: Option<NodeId>): (r: Edge)
    requires e.IsSingle()
    ensures r.Kind() == e.Kind() && r.target == y
  {
    if e.MaybeEdge? then MaybeEdge(y) else OneEdge(y)
  }

  /** A sequence edge of the same kind as `e`, holding `ys`. */
  function WithElems(e: Edge, ys: seq<Option<NodeId>>): (r: Edge)
    requires e.IsSequence()
    ensures r.Kind() == e.Kind() && r.elems == ys
  {
    if e.AnyEdge? then AnyEdge(ys) else ManyEdge(ys)
  }

  /** A generated node's `clone()` of its fields, in order. */
  function CloneEdges(h0: Heap, h: Heap, es: seq<Edge>, anc: set<NodeId>): (r: Result<Cloned<seq<Edge>>>)
    requires EdgesIn(h0, es)
    ensures r.Err? ==> r.error == NotWellFormed
    ensures r.Ok? ==>
      && CloneFrame(h, r.value)
      && EdgesShape(es, r.value.val)
      && EdgesTargets(r.value.val) <= Fresh(h, r.value.heap)
    decreases h0.nodes.Keys - anc, EdgesRank(es)
  {
    if es == [] then Ok(Cloned(h, []))
    else
      var d :- CloneEdge(h0, h, es[0], anc);
      var ds :- CloneEdges(h0, d.heap, es[1..], anc);
      ExtendsTrans(h, d.heap, ds.heap);
      ContainedTrans(h, d.heap, ds.heap);
      EdgesShapeCons(es, d.val, ds.val);
      Ok(Cloned(ds.heap, [d.val] + ds.val))
  }

  lemma EdgesShapeCons(es: seq<Edge>, e': Edge, es': seq<Edge>)
    requires es != [] && EdgeShape(es[0], e') && EdgesShape(es[1..], es')
    ensures EdgesShape(es, [e'] + es')
  {
    forall j | 0 <= j < |es| ensures EdgeShape(es[j], ([e'] + es')[j]) {
      if j > 0 {
        assert es[j] == es[1..][j - 1];
      }
    }
  }

  // ---------------------------------------------------------------------
  // Cloning a tree

  /**
   On a subtree the reachability pass registered (`New(a, b)`), cloning
   never meets an owning cycle, and it allocates exactly one node per
   registered node.
   */
  lemma {:induction false} CloneSlotSucceeds(h0: Heap, h: Heap, x: Option<NodeId>, a: PointerMap, b: PointerMap, anc: set<NodeId>)
    requires SlotIn(h0, x) && ReachSlot(h0, x, a) == Ok(b) && anc <= a.seqno.Keys
    ensures CloneSlot(h0, h, x, anc).Ok?
    ensures |Fresh(h, CloneSlot(h0, h, x, anc).value.heap)| == |New(a, b)|
    decreases h0.nodes.Keys - a.seqno.Keys, 0
  {
    if x.Some? {
      var c := x.value;
      var a1 := ReachSlotSome(h0, c, a, b);
      CloneEdgesSucceed(h0, h, h0.nodes[c].edges, a1, b, anc + {c});
      CloneSlotSome(h0, h, c, anc);
    }
  }

  /** Growing a set in two steps: what the second step adds comes on top of the first. */
  lemma CardSplit(k0: set<NodeId>, k1: set<NodeId>, k2: set<NodeId>)
    requires k0 <= k1 <= k2
    ensures |k2 - k0| == |k1 - k0| + |k2 - k1|
  {
    assert k2 - k0 == (k1 - k0) + (k2 - k1);
  }

  /** Cloning a filled slot allocates the clone of its node on top of the clones of its children. */
  lemma CloneSlotSome(h0: Heap, h: Heap, c: NodeId, anc: set<NodeId>)
    requires c in h0.nodes && c !in anc && CloneEdges(h0, h, h0.nodes[c].edges, anc + {c}).Ok?
    ensures CloneSlot(h0, h, Some(c), anc).Ok?
    ensures |Fresh(h, CloneSlot(h0, h, Some(c), anc).value.heap)|
         == |Fresh(h, CloneEdges(h0, h, h0.nodes[c].edges, anc + {c}).value.heap)| + 1
  {
    var d := CloneEdges(h0, h, h0.nodes[c].edges, anc + {c}).value;
    var m := CloneSlotUnfold(h0, h, c, anc, d);
    MakeAddsOne(h, d.heap, Node(h0.nodes[c].payload, d.val));
  }

  lemma CloneSlotUnfold(h0: Heap, h: Heap, c: NodeId, anc: set<NodeId>, d: Cloned<seq<Edge>>)
    returns (m: (Heap, Option<NodeId>))
    requires c in h0.nodes && c !in anc && CloneEdges(h0, h, h0.nodes[c].edges, anc + {c}) == Ok(d)
    ensures OwnedTargets(Node(h0.nodes[c].payload, d.val)) <= d.heap.nodes.Keys
    ensures m == Make(d.heap, Node(h0.nodes[c].payload, d.val))
    ensures CloneSlot(h0, h, Some(c), anc) == Ok(Cloned(m.0, m.1))
  {
    m := Make(d.heap, Node(h0.nodes[c].payload, d.val));
  }

  lemma MakeAddsOne(h: Heap, h1: Heap, n: Node)
    requires OwnedTargets(n) <= h1.nodes.Keys && HeapExtends(h, h1)
    ensures |Fresh(h, Make(h1, n).0)| == |Fresh(h, h1)| + 1
  {
    var r := Make(h1, n);
    assert r.0.nodes.Keys == h1.nodes.Keys + {r.1.value};
    CardAddOne(h.nodes.Keys, h1.nodes.Keys, r.1.value);
  }

  lemma CardAddOne(k0: set<NodeId>, k1: set<NodeId>, k: NodeId)
    requires k0 <= k1 && k !in k1
    ensures |(k1 + {k}) - k0| == |k1 - k0| + 1
  {
    assert (k1 + {k}) - k0 == (k1 - k0) + {k};
  }

  lemma {:induction false} CloneSlotsSucceed(h0: Heap, h: Heap, xs: seq<Option<NodeId>>, a: PointerMap, b: PointerMap, anc: set<NodeId>)
    requires SlotsTargets(xs) <= h0.nodes.Keys && ReachSlots(h0, xs, a) == Ok(b) && anc <= a.seqno.Keys
    ensures CloneSlots(h0, h, xs, anc).Ok?
    ensures |Fresh(h, CloneSlots(h0, h, xs, anc).value.heap)| == |New(a, b)|
    decreases h0.nodes.Keys - a.seqno.Keys, |xs| + 1
  {
    if xs != [] {
      var a1 := ReachSlotsCons(h0, xs, a, b);
      CloneSlotSucceeds(h0, h, xs[0], a, a1, anc);
      var d := CloneSlot(h0, h, xs[0], anc).value;
      CloneSlotsSucceed(h0, d.heap, xs[1..], a1, b, anc);
      var ds := CloneSlots(h0, d.heap, xs[1..], anc).value;
      CardSplit(h.nodes.Keys, d.heap.nodes.Keys, ds.heap.nodes.Keys);
      CardSplit(a.seqno.Keys, a1.seqno.Keys, b.seqno.Keys);
    }
  }

  lemma {:induction false} CloneEdgeSucceeds(h0: Heap, h: Heap, e: Edge, a: PointerMap, b: PointerMap, anc: set<NodeId>)
    requires EdgeIn(h0, e) && ReachEdge(h0, e, a) == Ok(b) && anc <= a.seqno.Keys
    ensures CloneEdge(h0, h, e, anc).Ok?
    ensures |Fresh(h, CloneEdge(h0, h, e, anc).value.heap)| == |New(a, b)|
    decreases h0.nodes.Keys - a.seqno.Keys, EdgeRank(e)
  {
    if e.IsSingle() {
      CloneSlotSucceeds(h0, h, e.target, a, b, anc);
    } else if e.IsSequence() {
      CloneSlotsSucceed(h0, h, e.elems, a, b, anc);
    } else {
      assert New(a, b) == {};
    }
  }

  lemma {:induction false} CloneEdgesSucceed(h0: Heap, h: Heap, es: seq<Edge>, a: PointerMap, b: PointerMap, anc: set<NodeId>)
    requires EdgesIn(h0, es) && ReachEdges(h0, es, a) == Ok(b) && anc <= a.seqno.Keys
    ensures CloneEdges(h0, h, es, anc).Ok?
    ensures |Fresh(h, CloneEdges(h0, h, es, anc).value.heap)| == |New(a, b)|
    decreases h0.nodes.Keys - a.seqno.Keys, EdgesRank(es)
  {
    if es != [] {
      var a1 := ReachEdgesCons(h0, es, a, b);
      CloneEdgeSucceeds(h0, h, es[0], a, a1, anc);
      var d := CloneEdge(h0, h, es[0], anc).value;
      CloneEdgesSucceed(h0, d.heap, es[1..], a1, b, anc);
      var ds := CloneEdges(h0, d.heap, es[1..], anc).value;
      CardSplit(h.nodes.Keys, d.heap.nodes.Keys, ds.heap.nodes.Keys);
      CardSplit(a.seqno.Keys, a1.seqno.Keys, b.seqno.Keys);
    }
  }

  /**
   `clone()` of the root of a well-formed tree succeeds and yields an
   independent tree of the same size: as many fresh nodes as the tree
   has, none of them owning an original node, the root's payload and
   edge shapes kept, and its links still observing the original targets.
   */
  lemma CloneWellFormed(h: Heap, root: Option<NodeId>) returns (d: Cloned<Option<NodeId>>)
    requires SlotIn(h, root) && IsWellFormed(h, MaybeEdge(root))
    ensures CloneSlot(h, h, root, {}) == Ok(d)
    ensures |Fresh(h, d.heap)| == |ReachEdge(h, MaybeEdge(root), EmptyMap).value.seqno|
    ensures SelfContained(d.heap, Fresh(h, d.heap))
    ensures d.val.Some? <==> root.Some?
    ensures d.val.Some? ==> d.val.value in Fresh(h, d.heap) && NodeShape(h.nodes[root.value], d.heap.nodes[d.val.value])
  {
    var b := ReachEdge(h, MaybeEdge(root), EmptyMap).value;
    assert ReachSlot(h, root, EmptyMap) == Ok(b);
    CloneSlotSucceeds(h, h, root, EmptyMap, b, {});
    assert New(EmptyMap, b) == b.seqno.Keys;
    d := CloneSlot(h, h, root, {}).value;
  }
}
