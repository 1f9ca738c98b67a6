/**
 Properties of serialization: the tags are distinct, and `serialize`
 succeeds exactly on well-formed trees in which no link reachable from the
 root is empty. In particular a well-formed tree holding an empty
 `OptLink` cannot be serialized, because the empty link's lookup in the
 `PointerMap` fails.
 */
module SerdesProps {
  import opened Results
  import opened Graph
  import opened PointerMaps
  import opened Validation
  import opened ValidationProps
  import opened Ownership
  import opened Serdes

  /** The six edge kinds write six different tags, so a tag identifies its kind. */
  lemma TagsDistinct(k: EdgeKind, k': EdgeKind)
    ensures Tag(k) == Tag(k') <==> k == k'
  {
  }

  /** What writing an edge needs locally: a link must observe a live, registered node. */
  predicate EdgeEmittable(h: Heap, e: Edge, pm: PointerMap) {
    e.IsLink() ==> Live(h, e.link) && e.link.value in pm.seqno
  }

  predicate EdgesEmittable(h: Heap, es: seq<Edge>, pm: PointerMap) {
    forall j :: 0 <= j < |es| ==> EdgeEmittable(h, es[j], pm)
  }

  /** Every node of `s` is live and all of its links can be written. */
  predicate AllEmittable(h: Heap, s: set<NodeId>, pm: PointerMap) {
    forall n :: n in s ==> n in h.nodes && EdgesEmittable(h, h.nodes[n].edges, pm)
  }

  /**
   After `find_reachable` registered the subtree under a slot (`New(a, b)`,
   numbered in `pm`), writing that slot succeeds exactly when every link of
   the subtree can be written; the path guard never fires.
   */
  lemma {:induction false} EmitSlotMatches(h: Heap, x: Option<NodeId>, tag: string,
                                           a: PointerMap, b: PointerMap, pm: PointerMap, anc: set<NodeId>)
    requires SlotIn(h, x)
    requires ReachSlot(h, x, a) == Ok(b)
    requires anc <= a.seqno.Keys && b.seqno.Keys <= pm.seqno.Keys
    ensures EmitSlot(h, x, tag, pm, anc).Ok? <==> AllEmittable(h, New(a, b), pm)
    decreases h.nodes.Keys - a.seqno.Keys, 0
  {
    match x
    case None =>
    case Some(c) =>
      var a1 := ReachSlotSome(h, c, a, b);
      EmitEdgesMatch(h, h.nodes[c].edges, a1, b, pm, anc + {c});
  }

  lemma {:induction false} EmitSlotsMatch(h: Heap, xs: seq<Option<NodeId>>,
                                          a: PointerMap, b: PointerMap, pm: PointerMap, anc: set<NodeId>)
    requires SlotsTargets(xs) <= h.nodes.Keys
    requires ReachSlots(h, xs, a) == Ok(b)
    requires anc <= a.seqno.Keys && b.seqno.Keys <= pm.seqno.Keys
    ensures EmitSlots(h, xs, pm, anc).Ok? <==> AllEmittable(h, New(a, b), pm)
    decreases h.nodes.Keys - a.seqno.Keys, |xs| + 1
  {
    if xs != [] {
      var a1 := ReachSlotsCons(h, xs, a, b);
      EmitSlotMatches(h, xs[0], Tag(OneKind), a, a1, pm, anc);
      EmitSlotsMatch(h, xs[1..], a1, b, pm, anc);
    }
  }

  lemma {:induction false} EmitEdgeMatches(h: Heap, e: Edge,
                                           a: PointerMap, b: PointerMap, pm: PointerMap, anc: set<NodeId>)
    requires EdgeIn(h, e)
    requires ReachEdge(h, e, a) == Ok(b)
    requires anc <= a.seqno.Keys && b.seqno.Keys <= pm.seqno.Keys
    ensures EmitEdge(h, e, pm, anc).Ok? <==> EdgeEmittable(h, e, pm) && AllEmittable(h, New(a, b), pm)
    decreases h.nodes.Keys - a.seqno.Keys, EdgeRank(e)
  {
    match e
    case MaybeEdge(x) => EmitSlotMatches(h, x, Tag(e.Kind()), a, b, pm, anc);
    case OneEdge(x) => EmitSlotMatches(h, x, Tag(e.Kind()), a, b, pm, anc);
    case AnyEdge(xs) => EmitSlotsMatch(h, xs, a, b, pm, anc);
    case ManyEdge(xs) => EmitSlotsMatch(h, xs, a, b, pm, anc);
    case OptLinkEdge(l) => assert New(a, b) == {};
    case LinkEdge(l) => assert New(a, b) == {};
  }

  lemma {:induction false} EmitEdgesMatch(h: Heap, es: seq<Edge>,
                                          a: PointerMap, b: PointerMap, pm: PointerMap, anc: set<NodeId>)
    requires EdgesIn(h, es)
    requires ReachEdges(h, es, a) == Ok(b)
    requires anc <= a.seqno.Keys && b.seqno.Keys <= pm.seqno.Keys
    ensures EmitEdges(h, es, pm, anc).Ok? <==> EdgesEmittable(h, es, pm) && AllEmittable(h, New(a, b), pm)
    decreases h.nodes.Keys - a.seqno.Keys, EdgesRank(es)
  {
    if es != [] {
      var a1 := ReachEdgesCons(h, es, a, b);
      EmitEdgeMatches(h, es[0], a, a1, pm, anc);
      EmitEdgesMatch(h, es[1..], a1, b, pm, anc);
      assert EdgesEmittable(h, es, pm) <==>
             EdgeEmittable(h, es[0], pm) && EdgesEmittable(h, es[1..], pm) by {
        if EdgeEmittable(h, es[0], pm) && EdgesEmittable(h, es[1..], pm) {
          forall j | 0 <= j < |es| ensures EdgeEmittable(h, es[j], pm) {
            if j > 0 { assert es[j] == es[1..][j - 1]; }
          }
        }
      }
    }
  }

  /** No link held by a node of `s` is empty. */
  predicate LinksLive(h: Heap, s: set<NodeId>) {
    forall n, j :: n in s && n in h.nodes && 0 <= j < |h.nodes[n].edges| && h.nodes[n].edges[j].IsLink() ==>
      Live(h, h.nodes[n].edges[j].link)
  }

  /** No link of a node reachable from the root through owning edges is empty. */
  ghost predicate ReachableLinksLive(h: Heap, root: Option<NodeId>) {
    LinksLive(h, OwnReach(h, SlotTargets(root)))
  }

  /**
   `serialize` succeeds exactly on well-formed trees whose reachable links
   are all non-empty. (In a well-formed tree a live link already observes
   a registered node; an empty `OptLink` is accepted by validation but its
   lookup fails when written.)
   */
  lemma SerializeIff(h: Heap, root: Option<NodeId>)
    requires SlotIn(h, root)
    ensures Serialize(h, root).Ok? <==> IsWellFormed(h, MaybeEdge(root)) && ReachableLinksLive(h, root)
  {
    var e := MaybeEdge(root);
    var r := ReachEdge(h, e, EmptyMap);
    WellFormedIffRegistered(h, e);
    ReachIffUniqueOwners(h, e);
    assert EdgeTargets(e) == SlotTargets(root);
    if r.Ok? {
      var pm := r.value;
      assert New(EmptyMap, pm) == pm.seqno.Keys;
      EmitEdgeMatches(h, e, EmptyMap, pm, pm, {});
      CompleteEdgeMatches(h, e, EmptyMap, pm, pm, {});
      if AllLocallyComplete(h, pm.seqno.Keys, pm.seqno.Keys) {
        EmittableIffLive(h, pm.seqno.Keys, pm);
      }
    }
  }

  /** Among locally complete nodes, a link can be written exactly when it is not empty. */
  lemma EmittableIffLive(h: Heap, s: set<NodeId>, pm: PointerMap)
    requires AllLocallyComplete(h, s, pm.seqno.Keys)
    ensures AllEmittable(h, s, pm) <==> LinksLive(h, s)
  {
    if LinksLive(h, s) {
      forall n | n in s ensures n in h.nodes && EdgesEmittable(h, h.nodes[n].edges, pm) {
        forall j | 0 <= j < |h.nodes[n].edges| ensures EdgeEmittable(h, h.nodes[n].edges[j], pm) {
          assert EdgeLocallyComplete(h, h.nodes[n].edges[j], pm.seqno.Keys);
        }
      }
    }
    if AllEmittable(h, s, pm) {
      forall n, j | n in s && n in h.nodes && 0 <= j < |h.nodes[n].edges| && h.nodes[n].edges[j].IsLink()
        ensures Live(h, h.nodes[n].edges[j].link)
      {
        assert EdgeEmittable(h, h.nodes[n].edges[j], pm);
      }
    }
  }

  /**
   The `OptLink` quirk: a well-formed tree in which some reachable node
   holds an empty `OptLink` is refused by `serialize` with NotWellFormed.
   */
  lemma EmptyOptLinkNotSerializable(h: Heap, root: Option<NodeId>, n: NodeId, j: nat)
    requires SlotIn(h, root) && IsWellFormed(h, MaybeEdge(root))
    requires n in OwnReach(h, SlotTargets(root))
    requires n in h.nodes && j < |h.nodes[n].edges| && h.nodes[n].edges[j] == OptLinkEdge(None)
    ensures Serialize(h, root) == Err(NotWellFormed)
  {
    SerializeIff(h, root);
  }
}
