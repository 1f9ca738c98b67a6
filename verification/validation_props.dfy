/**
 Properties of the validation passes: the completeness pass, run after a
 successful reachability pass, fails exactly when some owning-reachable
 edge fails its local check, and `check_well_formed` succeeds exactly when
 no node is owned twice, every required edge is filled and every filled
 link observes a node reachable from the root (ownership and reachability
 as `Ownership` defines them).
 */
module ValidationProps {
  import opened Results
  import opened Graph
  import opened PointerMaps
  import opened Validation
  import opened Ownership

  /** Every node of `s` is live and passes its local completeness checks. */
  predicate AllLocallyComplete(h: Heap, s: set<NodeId>, reg: set<NodeId>) {
    forall n :: n in s ==> n in h.nodes && NodeLocallyComplete(h, h.nodes[n], reg)
  }

  /**
   After `find_reachable` registered the subtree under a slot (the nodes
   `New(a, b)`), `check_complete` of that slot succeeds exactly when the
   slot itself is acceptable and every node of the subtree is locally
   complete. `anc` holds the nodes on the path above, which are already
   registered, so the model's cycle guard never fires.
   */
  lemma {:induction false} CompleteSlotMatches(h: Heap, x: Option<NodeId>, required: bool,
                                               a: PointerMap, b: PointerMap, pm: PointerMap, anc: set<NodeId>)
    requires SlotIn(h, x)
    requires ReachSlot(h, x, a) == Ok(b)
    requires anc <= a.seqno.Keys
    ensures CompleteSlot(h, x, required, pm, anc).Ok? <==>
              (required ==> x.Some?) && AllLocallyComplete(h, New(a, b), pm.seqno.Keys)
    decreases h.nodes.Keys - a.seqno.Keys, 0
  {
    match x
    case None =>
    case Some(c) =>
      var a1 := ReachSlotSome(h, c, a, b);
      CompleteEdgesMatch(h, h.nodes[c].edges, a1, b, pm, anc + {c});
  }

  /** Every slot of a non-empty list is filled iff the head is and every slot of the tail is. */
  lemma AllFilledCons(xs: seq<Option<NodeId>>)
    requires xs != []
    ensures (forall i :: 0 <= i < |xs| ==> xs[i].Some?) <==>
            xs[0].Some? && (forall i :: 0 <= i < |xs[1..]| ==> xs[1..][i].Some?)
  {
    if xs[0].Some? && (forall i :: 0 <= i < |xs[1..]| ==> xs[1..][i].Some?) {
      forall i | 0 < i < |xs| ensures xs[i].Some? {
        assert xs[i] == xs[1..][i - 1];
      }
    }
  }

  lemma {:induction false} CompleteSlotsMatch(h: Heap, xs: seq<Option<NodeId>>,
                                              a: PointerMap, b: PointerMap, pm: PointerMap, anc: set<NodeId>)
    requires SlotsTargets(xs) <= h.nodes.Keys
    requires ReachSlots(h, xs, a) == Ok(b)
    requires anc <= a.seqno.Keys
    ensures CompleteSlots(h, xs, pm, anc).Ok? <==>
              (forall i :: 0 <= i < |xs| ==> xs[i].Some?) && AllLocallyComplete(h, New(a, b), pm.seqno.Keys)
    decreases h.nodes.Keys - a.seqno.Keys, |xs| + 1
  {
    if xs != [] {
      var a1 := ReachSlotsCons(h, xs, a, b);
      CompleteSlotMatches(h, xs[0], true, a, a1, pm, anc);
      CompleteSlotsMatch(h, xs[1..], a1, b, pm, anc);
      AllFilledCons(xs);
    }
  }

  lemma {:induction false} CompleteEdgeMatches(h: Heap, e: Edge,
                                               a: PointerMap, b: PointerMap, pm: PointerMap, anc: set<NodeId>)
    requires EdgeIn(h, e)
    requires ReachEdge(h, e, a) == Ok(b)
    requires anc <= a.seqno.Keys
    ensures CompleteEdge(h, e, pm, anc).Ok? <==>
              EdgeLocallyComplete(h, e, pm.seqno.Keys) && AllLocallyComplete(h, New(a, b), pm.seqno.Keys)
    decreases h.nodes.Keys - a.seqno.Keys, EdgeRank(e)
  {
    match e
    case MaybeEdge(x) => CompleteSlotMatches(h, x, false, a, b, pm, anc);
    case OneEdge(x) => CompleteSlotMatches(h, x, true, a, b, pm, anc);
    case AnyEdge(xs) => CompleteSlotsMatch(h, xs, a, b, pm, anc);
    case ManyEdge(xs) => CompleteSlotsMatch(h, xs, a, b, pm, anc);
    case OptLinkEdge(l) => assert New(a, b) == {};
    case LinkEdge(l) => assert New(a, b) == {};
  }

  lemma {:induction false} CompleteEdgesMatch(h: Heap, es: seq<Edge>,
                                              a: PointerMap, b: PointerMap, pm: PointerMap, anc: set<NodeId>)
    requires EdgesIn(h, es)
    requires ReachEdges(h, es, a) == Ok(b)
    requires anc <= a.seqno.Keys
    ensures CompleteEdges(h, es, pm, anc).Ok? <==>
              EdgesLocallyComplete(h, es, pm.seqno.Keys) && AllLocallyComplete(h, New(a, b), pm.seqno.Keys)
    decreases h.nodes.Keys - a.seqno.Keys, EdgesRank(es)
  {
    if es != [] {
      var a1 := ReachEdgesCons(h, es, a, b);
      CompleteEdgeMatches(h, es[0], a, a1, pm, anc);
      CompleteEdgesMatch(h, es[1..], a1, b, pm, anc);
      assert EdgesLocallyComplete(h, es, pm.seqno.Keys) <==>
             EdgeLocallyComplete(h, es[0], pm.seqno.Keys) && EdgesLocallyComplete(h, es[1..], pm.seqno.Keys) by {
        if EdgeLocallyComplete(h, es[0], pm.seqno.Keys) && EdgesLocallyComplete(h, es[1..], pm.seqno.Keys) {
          forall j | 0 <= j < |es| ensures EdgeLocallyComplete(h, es[j], pm.seqno.Keys) {
            if j > 0 { assert es[j] == es[1..][j - 1]; }
          }
        }
      }
    }
  }

  /**
   `check_well_formed` of an edge succeeds exactly when the reachability
   pass succeeds and every edge of the edge itself and of every node the
   pass registered passes its local check: required edges filled, sequence
   elements filled, filled links observing registered nodes.
   */
  lemma WellFormedIffRegistered(h: Heap, e: Edge)
    requires EdgeIn(h, e)
    ensures CheckWellFormed(h, e).Ok? <==>
              && ReachEdge(h, e, EmptyMap).Ok?
              && EdgeLocallyComplete(h, e, ReachEdge(h, e, EmptyMap).value.seqno.Keys)
              && AllLocallyComplete(h, ReachEdge(h, e, EmptyMap).value.seqno.Keys, ReachEdge(h, e, EmptyMap).value.seqno.Keys)
  {
    var r := ReachEdge(h, e, EmptyMap);
    if r.Ok? {
      CompleteEdgeMatches(h, e, EmptyMap, r.value, r.value, {});
      assert New(EmptyMap, r.value) == r.value.seqno.Keys;
    }
  }

  /**
   `check_well_formed` of an edge, stated without the passes: it succeeds
   exactly when no node is owned twice (within one vector, across fields,
   by two different nodes, or around an owning cycle), and every edge of
   the edge itself and of every node reachable through owning edges is
   locally complete, with filled links observing reachable nodes.
   */
  lemma WellFormedIff(h: Heap, e: Edge)
    requires EdgeIn(h, e)
    ensures CheckWellFormed(h, e).Ok? <==>
              && UniqueOwners(h, EdgeSlots(e))
              && EdgeLocallyComplete(h, e, OwnReach(h, EdgeTargets(e)))
              && AllLocallyComplete(h, OwnReach(h, EdgeTargets(e)), OwnReach(h, EdgeTargets(e)))
  {
    WellFormedIffRegistered(h, e);
    ReachIffUniqueOwners(h, e);
  }

  /**
   Duplicate ownership inside one vector: when two elements of an
   `Any`/`Many` hold the same node, `find_reachable` fails.
   */
  lemma {:induction false} SharedElementRejected(h: Heap, xs: seq<Option<NodeId>>, pm: PointerMap, i: nat, j: nat)
    requires SlotsTargets(xs) <= h.nodes.Keys
    requires i < j < |xs| && xs[i].Some? && xs[i] == xs[j]
    ensures ReachSlots(h, xs, pm) == Err(NotWellFormed)
  {
    var r1 := ReachSlot(h, xs[0], pm);
    if r1.Ok? {
      if i == 0 {
        SlotsTargetsMember(xs[1..], j - 1);
        assert xs[1..][j - 1] == xs[j];
        assert xs[0].value in r1.value.seqno;
      } else {
        assert xs[1..][i - 1] == xs[i] && xs[1..][j - 1] == xs[j];
        SharedElementRejected(h, xs[1..], r1.value, i - 1, j - 1);
      }
    }
  }

  /**
   Duplicate ownership across fields: when two different fields of a node
   own the same node, `find_reachable` fails.
   */
  lemma {:induction false} SharedChildRejected(h: Heap, es: seq<Edge>, pm: PointerMap, i: nat, j: nat, c: NodeId)
    requires EdgesIn(h, es)
    requires i < j < |es| && c in EdgeTargets(es[i]) && c in EdgeTargets(es[j])
    ensures ReachEdges(h, es, pm) == Err(NotWellFormed)
  {
    var r1 := ReachEdge(h, es[0], pm);
    if r1.Ok? {
      assert es[1..][j - 1] == es[j];
      if i == 0 {
        EdgesTargetsMember(es[1..], j - 1);
        assert c in r1.value.seqno;
      } else {
        assert es[1..][i - 1] == es[i];
        SharedChildRejected(h, es[1..], r1.value, i - 1, j - 1, c);
      }
    }
  }
}
