/**
 Validation is invariant under renaming: if `h2` holds, for every node of a
 set `d` closed under ownership, a renamed copy (`Corr`), then the
 reachability and completeness passes over the copy succeed wherever they
 succeed over the original, registering the counterparts of the nodes the
 original registers.
 */
module Transport {
  import opened Results
  import opened Graph
  import opened PointerMaps
  import opened Validation
  import opened Renaming

  /** The counterpart of `n` exists and lies in `s2`. */
  predicate Mapped(pm: PointerMap, m: map<int, NodeId>, n: NodeId, s2: set<NodeId>) {
    Re(pm, m, Some(n)).Some? && Re(pm, m, Some(n)).value in s2
  }

  /**
   `h2` holds a renamed copy of every node of `d`; `d` is closed under
   ownership, and distinct nodes have distinct counterparts.
   */
  predicate Corr(h: Heap, pm: PointerMap, m: map<int, NodeId>, d: set<NodeId>, h2: Heap) {
    && (forall n :: n in d ==> n in h.nodes && OwnedTargets(h.nodes[n]) <= d)
    && (forall n :: n in d ==> Mapped(pm, m, n, h2.nodes.Keys))
    && (forall n :: n in d ==> h2.nodes[Re(pm, m, Some(n)).value] == RenameNode(pm, m, h.nodes[n]))
    && (forall n, n' :: n in d && n' in d && n != n' ==> Re(pm, m, Some(n)) != Re(pm, m, Some(n')))
  }

  /** On `d`, membership in `s` and membership of the counterpart in `s2` coincide. */
  predicate Tracks(pm: PointerMap, m: map<int, NodeId>, d: set<NodeId>, s: set<NodeId>, s2: set<NodeId>) {
    forall n :: n in d ==> (n in s <==> Mapped(pm, m, n, s2))
  }

  /** Adding a node and its counterpart keeps the two sets in step. */
  lemma TracksAdd(h: Heap, pm: PointerMap, m: map<int, NodeId>, d: set<NodeId>, h2: Heap,
                  s: set<NodeId>, s2: set<NodeId>, c: NodeId)
    requires Corr(h, pm, m, d, h2) && Tracks(pm, m, d, s, s2) && c in d
    ensures Tracks(pm, m, d, s + {c}, s2 + {Re(pm, m, Some(c)).value})
  {
  }

  lemma {:induction false} ReachSlotTransport(h: Heap, h2: Heap, pm: PointerMap, m: map<int, NodeId>, d: set<NodeId>,
                                              x: Option<NodeId>, a: PointerMap, b: PointerMap, a2: PointerMap)
    requires Corr(h, pm, m, d, h2)
    requires SlotIn(h, x) && SlotTargets(x) <= d && SlotIn(h2, Re(pm, m, x))
    requires ReachSlot(h, x, a) == Ok(b)
    requires Tracks(pm, m, d, a.seqno.Keys, a2.seqno.Keys)
    ensures ReachSlot(h2, Re(pm, m, x), a2).Ok?
    ensures Tracks(pm, m, d, b.seqno.Keys, ReachSlot(h2, Re(pm, m, x), a2).value.seqno.Keys)
    decreases h.nodes.Keys - a.seqno.Keys, 0
  {
    match x
    case None =>
    case Some(c) =>
      var k := Re(pm, m, x).value;
      var a1 := Add(a, c).value;
      assert k !in a2.seqno;
      var a21 := Add(a2, k).value;
      TracksAdd(h, pm, m, d, h2, a.seqno.Keys, a2.seqno.Keys, c);
      assert h2.nodes[k].edges == RenameEdges(pm, m, h.nodes[c].edges);
      ReachEdgesTransport(h, h2, pm, m, d, h.nodes[c].edges, a1, b, a21);
  }

  lemma {:induction false} ReachSlotsTransport(h: Heap, h2: Heap, pm: PointerMap, m: map<int, NodeId>, d: set<NodeId>,
                                               xs: seq<Option<NodeId>>, a: PointerMap, b: PointerMap, a2: PointerMap)
    requires Corr(h, pm, m, d, h2)
    requires SlotsTargets(xs) <= d && SlotsTargets(xs) <= h.nodes.Keys && SlotsTargets(ReSlots(pm, m, xs)) <= h2.nodes.Keys
    requires ReachSlots(h, xs, a) == Ok(b)
    requires Tracks(pm, m, d, a.seqno.Keys, a2.seqno.Keys)
    ensures ReachSlots(h2, ReSlots(pm, m, xs), a2).Ok?
    ensures Tracks(pm, m, d, b.seqno.Keys, ReachSlots(h2, ReSlots(pm, m, xs), a2).value.seqno.Keys)
    decreases h.nodes.Keys - a.seqno.Keys, |xs| + 1
  {
    if xs != [] {
      var ys := ReSlots(pm, m, xs);
      var a1 := ReachSlot(h, xs[0], a).value;
      ReachSlotTransport(h, h2, pm, m, d, xs[0], a, a1, a2);
      var a21 := ReachSlot(h2, ys[0], a2).value;
      assert ys[1..] == ReSlots(pm, m, xs[1..]);
      ReachSlotsTransport(h, h2, pm, m, d, xs[1..], a1, b, a21);
    }
  }

  lemma {:induction false} ReachEdgeTransport(h: Heap, h2: Heap, pm: PointerMap, m: map<int, NodeId>, d: set<NodeId>,
                                              e: Edge, a: PointerMap, b: PointerMap, a2: PointerMap)
    requires Corr(h, pm, m, d, h2)
    requires EdgeIn(h, e) && EdgeTargets(e) <= d && EdgeIn(h2, RenameEdge(pm, m, e))
    requires ReachEdge(h, e, a) == Ok(b)
    requires Tracks(pm, m, d, a.seqno.Keys, a2.seqno.Keys)
    ensures ReachEdge(h2, RenameEdge(pm, m, e), a2).Ok?
    ensures Tracks(pm, m, d, b.seqno.Keys, ReachEdge(h2, RenameEdge(pm, m, e), a2).value.seqno.Keys)
    decreases h.nodes.Keys - a.seqno.Keys, EdgeRank(e)
  {
    match e
    case MaybeEdge(x) => ReachSlotTransport(h, h2, pm, m, d, x, a, b, a2);
    case OneEdge(x) => ReachSlotTransport(h, h2, pm, m, d, x, a, b, a2);
    case AnyEdge(xs) => ReachSlotsTransport(h, h2, pm, m, d, xs, a, b, a2);
    case ManyEdge(xs) => ReachSlotsTransport(h, h2, pm, m, d, xs, a, b, a2);
    case OptLinkEdge(_) =>
    case LinkEdge(_) =>
  }

  lemma {:induction false} ReachEdgesTransport(h: Heap, h2: Heap, pm: PointerMap, m: map<int, NodeId>, d: set<NodeId>,
                                               es: seq<Edge>, a: PointerMap, b: PointerMap, a2: PointerMap)
    requires Corr(h, pm, m, d, h2)
    requires EdgesIn(h, es) && EdgesTargets(es) <= d && EdgesIn(h2, RenameEdges(pm, m, es))
    requires ReachEdges(h, es, a) == Ok(b)
    requires Tracks(pm, m, d, a.seqno.Keys, a2.seqno.Keys)
    ensures ReachEdges(h2, RenameEdges(pm, m, es), a2).Ok?
    ensures Tracks(pm, m, d, b.seqno.Keys, ReachEdges(h2, RenameEdges(pm, m, es), a2).value.seqno.Keys)
    decreases h.nodes.Keys - a.seqno.Keys, EdgesRank(es)
  {
    if es != [] {
      var fs := RenameEdges(pm, m, es);
      var a1 := ReachEdge(h, es[0], a).value;
      ReachEdgeTransport(h, h2, pm, m, d, es[0], a, a1, a2);
      var a21 := ReachEdge(h2, fs[0], a2).value;
      assert fs[1..] == RenameEdges(pm, m, es[1..]);
      ReachEdgesTransport(h, h2, pm, m, d, es[1..], a1, b, a21);
    }
  }

  lemma {:induction false} CompleteSlotTransport(h: Heap, h2: Heap, pm: PointerMap, m: map<int, NodeId>,
                                                 x: Option<NodeId>, required: bool, p2: PointerMap,
                                                 anc: set<NodeId>, anc2: set<NodeId>)
    requires Corr(h, pm, m, pm.seqno.Keys, h2)
    requires SlotIn(h, x) && SlotTargets(x) <= pm.seqno.Keys && SlotIn(h2, Re(pm, m, x))
    requires CompleteSlot(h, x, required, pm, anc).Ok?
    requires Tracks(pm, m, pm.seqno.Keys, pm.seqno.Keys, p2.seqno.Keys)
    requires Tracks(pm, m, pm.seqno.Keys, anc, anc2)
    ensures CompleteSlot(h2, Re(pm, m, x), required, p2, anc2).Ok?
    decreases h.nodes.Keys - anc, 0
  {
    match x
    case None =>
    case Some(c) =>
      var k := Re(pm, m, x).value;
      TracksAdd(h, pm, m, pm.seqno.Keys, h2, anc, anc2, c);
      assert h2.nodes[k].edges == RenameEdges(pm, m, h.nodes[c].edges);
      CompleteEdgesTransport(h, h2, pm, m, h.nodes[c].edges, p2, anc + {c}, anc2 + {k});
  }

  lemma {:induction false} CompleteSlotsTransport(h: Heap, h2: Heap, pm: PointerMap, m: map<int, NodeId>,
                                                  xs: seq<Option<NodeId>>, p2: PointerMap,
                                                  anc: set<NodeId>, anc2: set<NodeId>)
    requires Corr(h, pm, m, pm.seqno.Keys, h2)
    requires SlotsTargets(xs) <= pm.seqno.Keys && SlotsTargets(xs) <= h.nodes.Keys && SlotsTargets(ReSlots(pm, m, xs)) <= h2.nodes.Keys
    requires CompleteSlots(h, xs, pm, anc).Ok?
    requires Tracks(pm, m, pm.seqno.Keys, pm.seqno.Keys, p2.seqno.Keys)
    requires Tracks(pm, m, pm.seqno.Keys, anc, anc2)
    ensures CompleteSlots(h2, ReSlots(pm, m, xs), p2, anc2).Ok?
    decreases h.nodes.Keys - anc, |xs| + 1
  {
    if xs != [] {
      var ys := ReSlots(pm, m, xs);
      CompleteSlotTransport(h, h2, pm, m, xs[0], true, p2, anc, anc2);
      assert ys[1..] == ReSlots(pm, m, xs[1..]);
      CompleteSlotsTransport(h, h2, pm, m, xs[1..], p2, anc, anc2);
    }
  }

  lemma {:induction false} CompleteEdgeTransport(h: Heap, h2: Heap, pm: PointerMap, m: map<int, NodeId>,
                                                 e: Edge, p2: PointerMap, anc: set<NodeId>, anc2: set<NodeId>)
    requires Corr(h, pm, m, pm.seqno.Keys, h2)
    requires EdgeIn(h, e) && EdgeTargets(e) <= pm.seqno.Keys && EdgeIn(h2, RenameEdge(pm, m, e))
    requires CompleteEdge(h, e, pm, anc).Ok?
    requires Tracks(pm, m, pm.seqno.Keys, pm.seqno.Keys, p2.seqno.Keys)
    requires Tracks(pm, m, pm.seqno.Keys, anc, anc2)
    ensures CompleteEdge(h2, RenameEdge(pm, m, e), p2, anc2).Ok?
    decreases h.nodes.Keys - anc, EdgeRank(e)
  {
    match e
    case MaybeEdge(x) => CompleteSlotTransport(h, h2, pm, m, x, false, p2, anc, anc2);
    case OneEdge(x) => CompleteSlotTransport(h, h2, pm, m, x, true, p2, anc, anc2);
    case AnyEdge(xs) => CompleteSlotsTransport(h, h2, pm, m, xs, p2, anc, anc2);
    case ManyEdge(xs) => CompleteSlotsTransport(h, h2, pm, m, xs, p2, anc, anc2);
    case OptLinkEdge(l) =>
      if Live(h, l) {
        assert l.value in pm.seqno;
      }
    case LinkEdge(l) =>
      assert l.value in pm.seqno;
  }

  lemma {:induction false} CompleteEdgesTransport(h: Heap, h2: Heap, pm: PointerMap, m: map<int, NodeId>,
                                                  es: seq<Edge>, p2: PointerMap, anc: set<NodeId>, anc2: set<NodeId>)
    requires Corr(h, pm, m, pm.seqno.Keys, h2)
    requires EdgesIn(h, es) && EdgesTargets(es) <= pm.seqno.Keys && EdgesIn(h2, RenameEdges(pm, m, es))
    requires CompleteEdges(h, es, pm, anc).Ok?
    requires Tracks(pm, m, pm.seqno.Keys, pm.seqno.Keys, p2.seqno.Keys)
    requires Tracks(pm, m, pm.seqno.Keys, anc, anc2)
    ensures CompleteEdges(h2, RenameEdges(pm, m, es), p2, anc2).Ok?
    decreases h.nodes.Keys - anc, EdgesRank(es)
  {
    if es != [] {
      var fs := RenameEdges(pm, m, es);
      CompleteEdgeTransport(h, h2, pm, m, es[0], p2, anc, anc2);
      assert fs[1..] == RenameEdges(pm, m, es[1..]);
      CompleteEdgesTransport(h, h2, pm, m, es[1..], p2, anc, anc2);
    }
  }

  /**
   A renamed copy of a well-formed tree is well-formed: validating the copy
   from the counterpart of the root succeeds.
   */
  lemma WellFormedTransport(h: Heap, h2: Heap, pm: PointerMap, m: map<int, NodeId>, root: Option<NodeId>)
    requires SlotIn(h, root) && CheckWellFormed(h, MaybeEdge(root)).Ok?
    requires pm == ReachEdge(h, MaybeEdge(root), EmptyMap).value
    requires Corr(h, pm, m, pm.seqno.Keys, h2)
    requires SlotIn(h2, Re(pm, m, root))
    ensures CheckWellFormed(h2, MaybeEdge(Re(pm, m, root))).Ok?
  {
    var d := pm.seqno.Keys;
    assert SlotTargets(root) <= d;
    ReachEdgeTransport(h, h2, pm, m, d, MaybeEdge(root), EmptyMap, pm, EmptyMap);
    var p2 := ReachEdge(h2, MaybeEdge(Re(pm, m, root)), EmptyMap).value;
    CompleteEdgeTransport(h, h2, pm, m, MaybeEdge(root), p2, {}, {});
  }
}
