/**
 Well-formedness checking (the `Completable` interface): the reachability
 pass `find_reachable`, the completeness pass `check_complete`, and
 `check_well_formed` / `is_well_formed`, which run one after the other.

 Both passes walk owning edges only, depth first, in field order. The
 reachability pass terminates because every node it enters is registered
 first, and entering a registered node is a duplicate. The completeness
 pass in the source recurses without such a guard and would not terminate
 on an owning cycle; the model carries the set of nodes on the current
 path and reports an owning cycle as NotWellFormed. After a successful
 reachability pass this guard never fires (see `CompleteMatchesLocalChecks`).
 */
module Validation {
  import opened Results
  import opened Graph
  import opened PointerMaps

  /** Measures that order the mutually recursive walks over one node's edges. */
  function EdgeRank(e: Edge): nat {
    if e.IsSequence() then |e.elems| + 2 else 1
  }

  function EdgesRank(es: seq<Edge>): nat {
    if es == [] then 0 else EdgeRank(es[0]) + 1 + EdgesRank(es[1..])
  }

  /** The nodes a pass registered beyond those already in `pm`. */
  function New(pm: PointerMap, pm': PointerMap): set<NodeId> {
    pm'.seqno.Keys - pm.seqno.Keys
  }

  /**
   `pm'` extends `pm` with live nodes only, and every node it newly
   registered has all its owned children newly registered as well.
   */
  predicate Grows(h: Heap, pm: PointerMap, pm': PointerMap) {
    && pm.seqno.Keys <= pm'.seqno.Keys
    && New(pm, pm') <= h.nodes.Keys
    && (forall n :: n in New(pm, pm') ==> OwnedTargets(h.nodes[n]) <= New(pm, pm'))
  }

  // ---------------------------------------------------------------------
  // Reachability pass

  /**
   `Maybe::find_reachable` (and `One`, which inherits it): a filled edge
   registers its node, failing on a duplicate, then recurses into it.
   */
  function ReachSlot(h: Heap, x: Option<NodeId>, pm: PointerMap): (r: Result<PointerMap>)
    requires SlotIn(h, x)
    ensures r.Err? ==> r.error == NotWellFormed
    ensures x.Some? && x.value in pm.seqno ==> r.Err?
    ensures r.Ok? ==> Grows(h, pm, r.value) && SlotTargets(x) <= New(pm, r.value)
    ensures r.Ok? && Valid(pm) ==> Valid(r.value)
    decreases h.nodes.Keys - pm.seqno.Keys, 0
  {
    match x
    case None => Ok(pm)
    case Some(c) =>
      var pm1 :- Add(pm, c);
      ReachEdges(h, h.nodes[c].edges, pm1)
  }

  /** `Any::find_reachable` (and `Many`): each element in order. */
  function ReachSlots(h: Heap, xs: seq<Option<NodeId>>, pm: PointerMap): (r: Result<PointerMap>)
    requires SlotsTargets(xs) <= h.nodes.Keys
    ensures r.Err? ==> r.error == NotWellFormed
    ensures r.Ok? ==> Grows(h, pm, r.value) && SlotsTargets(xs) <= New(pm, r.value)
    ensures r.Ok? && Valid(pm) ==> Valid(r.value)
    decreases h.nodes.Keys - pm.seqno.Keys, |xs| + 1
  {
    if xs == [] then Ok(pm)
    else
      var pm1 :- ReachSlot(h, xs[0], pm);
      ReachSlots(h, xs[1..], pm1)
  }

  /** `find_reachable` of one edge; links are inert and register nothing. */
  function ReachEdge(h: Heap, e: Edge, pm: PointerMap): (r: Result<PointerMap>)
    requires EdgeIn(h, e)
    ensures r.Err? ==> r.error == NotWellFormed
    ensures r.Ok? ==> Grows(h, pm, r.value) && EdgeTargets(e) <= New(pm, r.value)
    ensures e.IsLink() ==> r == Ok(pm)
    ensures r.Ok? && Valid(pm) ==> Valid(r.value)
    decreases h.nodes.Keys - pm.seqno.Keys, EdgeRank(e)
  {
    if e.IsSingle() then ReachSlot(h, e.target, pm)
    else if e.IsSequence() then ReachSlots(h, e.elems, pm)
    else Ok(pm)
  }

  /** A generated node's `find_reachable`: each field in order. */
  function ReachEdges(h: Heap, es: seq<Edge>, pm: PointerMap): (r: Result<PointerMap>)
    requires EdgesIn(h, es)
    ensures r.Err? ==> r.error == NotWellFormed
    ensures r.Ok? ==> Grows(h, pm, r.value) && EdgesTargets(es) <= New(pm, r.value)
    ensures r.Ok? && Valid(pm) ==> Valid(r.value)
    decreases h.nodes.Keys - pm.seqno.Keys, EdgesRank(es)
  {
    if es == [] then Ok(pm)
    else
      var pm1 :- ReachEdge(h, es[0], pm);
      ReachEdges(h, es[1..], pm1)
  }

  /** The pass over a non-empty list visits the head, then the tail; the nodes it registers split accordingly. */
  lemma ReachSlotsCons(h: Heap, xs: seq<Option<NodeId>>, a: PointerMap, b: PointerMap) returns (a1: PointerMap)
    requires xs != [] && SlotsTargets(xs) <= h.nodes.Keys && ReachSlots(h, xs, a) == Ok(b)
    ensures SlotIn(h, xs[0]) && SlotsTargets(xs[1..]) <= h.nodes.Keys
    ensures ReachSlot(h, xs[0], a) == Ok(a1) && ReachSlots(h, xs[1..], a1) == Ok(b)
    ensures a.seqno.Keys <= a1.seqno.Keys <= b.seqno.Keys && New(a, b) == New(a, a1) + New(a1, b)
    ensures var k, k1 := h.nodes.Keys - a.seqno.Keys, h.nodes.Keys - a1.seqno.Keys; k1 == k || k1 < k
  {
    a1 := ReachSlot(h, xs[0], a).value;
  }

  /** The pass over a filled slot registers the node, then visits its edges. */
  lemma ReachSlotSome(h: Heap, c: NodeId, a: PointerMap, b: PointerMap) returns (a1: PointerMap)
    requires c in h.nodes && ReachSlot(h, Some(c), a) == Ok(b)
    ensures Add(a, c) == Ok(a1) && EdgesIn(h, h.nodes[c].edges) && ReachEdges(h, h.nodes[c].edges, a1) == Ok(b)
    ensures a.seqno.Keys + {c} == a1.seqno.Keys && c !in New(a1, b)
    ensures New(a, b) == {c} + New(a1, b) == New(a1, b) + {c}
    ensures h.nodes.Keys - a1.seqno.Keys < h.nodes.Keys - a.seqno.Keys
  {
    a1 := Add(a, c).value;
  }

  lemma ReachEdgesCons(h: Heap, es: seq<Edge>, a: PointerMap, b: PointerMap) returns (a1: PointerMap)
    requires es != [] && EdgesIn(h, es) && ReachEdges(h, es, a) == Ok(b)
    ensures EdgeIn(h, es[0]) && EdgesIn(h, es[1..])
    ensures EdgeRank(es[0]) < EdgesRank(es) && EdgesRank(es[1..]) < EdgesRank(es)
    ensures ReachEdge(h, es[0], a) == Ok(a1) && ReachEdges(h, es[1..], a1) == Ok(b)
    ensures a.seqno.Keys <= a1.seqno.Keys <= b.seqno.Keys && New(a, b) == New(a, a1) + New(a1, b)
    ensures var k, k1 := h.nodes.Keys - a.seqno.Keys, h.nodes.Keys - a1.seqno.Keys; k1 == k || k1 < k
  {
    a1 := ReachEdge(h, es[0], a).value;
  }

  // ---------------------------------------------------------------------
  // Completeness pass

  /**
   `Maybe::check_complete` (`required` false) and `One::check_complete`
   (`required` true): an empty `One` is incomplete; a filled edge recurses.
   */
  function CompleteSlot(h: Heap, x: Option<NodeId>, required: bool, pm: PointerMap, anc: set<NodeId>): (r: Result<()>)
    requires SlotIn(h, x)
    ensures r.Err? ==> r.error == NotWellFormed
    ensures required && x.None? ==> r.Err?
    ensures !required && x.None? ==> r.Ok?
    decreases h.nodes.Keys - anc, 0
  {
    match x
    case None => if required then Err(NotWellFormed) else Ok(())
    case Some(c) =>
      if c in anc then Err(NotWellFormed)
      else CompleteEdges(h, h.nodes[c].edges, pm, anc + {c})
  }

  /** `Any::check_complete`: every element is a `One` and must be filled. */
  function CompleteSlots(h: Heap, xs: seq<Option<NodeId>>, pm: PointerMap, anc: set<NodeId>): (r: Result<()>)
    requires SlotsTargets(xs) <= h.nodes.Keys
    ensures r.Err? ==> r.error == NotWellFormed
    ensures r.Ok? ==> forall i :: 0 <= i < |xs| ==> xs[i].Some?
    decreases h.nodes.Keys - anc, |xs| + 1
  {
    if xs == [] then Ok(())
    else
      var _ :- CompleteSlot(h, xs[0], true, pm, anc);
      CompleteSlots(h, xs[1..], pm, anc)
  }

  /**
   The checks `check_complete` makes on one edge, before recursing: a
   `One` and a `Link` must be filled, a `Many` must be non-empty, every
   element of an `Any`/`Many` must be filled, and a link that is filled
   must observe a registered node (one of `reg`). Empty `Maybe`, `Any` and
   `OptLink` are accepted.
   */
  predicate EdgeLocallyComplete(h: Heap, e: Edge, reg: set<NodeId>) {
    match e
    case MaybeEdge(_) => true
    case OneEdge(x) => x.Some?
    case AnyEdge(xs) => forall i :: 0 <= i < |xs| ==> xs[i].Some?
    case ManyEdge(xs) => |xs| > 0 && forall i :: 0 <= i < |xs| ==> xs[i].Some?
    case OptLinkEdge(l) => Live(h, l) ==> l.value in reg
    case LinkEdge(l) => Live(h, l) && l.value in reg
  }

  predicate EdgesLocallyComplete(h: Heap, es: seq<Edge>, reg: set<NodeId>) {
    forall j :: 0 <= j < |es| ==> EdgeLocallyComplete(h, es[j], reg)
  }

  predicate NodeLocallyComplete(h: Heap, n: Node, reg: set<NodeId>) {
    EdgesLocallyComplete(h, n.edges, reg)
  }

  /**
   `check_complete` of one edge: fails exactly on the cases of
   `EdgeLocallyComplete`, then recurses into owned nodes.
   */
  function CompleteEdge(h: Heap, e: Edge, pm: PointerMap, anc: set<NodeId>): (r: Result<()>)
    requires EdgeIn(h, e)
    ensures r.Err? ==> r.error == NotWellFormed
    ensures r.Ok? ==> EdgeLocallyComplete(h, e, pm.seqno.Keys)
    decreases h.nodes.Keys - anc, EdgeRank(e)
  {
    match e
    case MaybeEdge(x) => CompleteSlot(h, x, false, pm, anc)
    case OneEdge(x) => CompleteSlot(h, x, true, pm, anc)
    case AnyEdge(xs) => CompleteSlots(h, xs, pm, anc)
    case ManyEdge(xs) =>
      if |xs| == 0 then Err(NotWellFormed) else CompleteSlots(h, xs, pm, anc)
    case OptLinkEdge(l) =>
      if LinkEmpty(h, l) then Ok(())
      else var _ :- Get(pm, LiveKey(h, l)); Ok(())
    case LinkEdge(l) =>
      if LinkEmpty(h, l) then Err(NotWellFormed)
      else var _ :- Get(pm, LiveKey(h, l)); Ok(())
  }

  /** A generated node's `check_complete`: each field in order. */
  function CompleteEdges(h: Heap, es: seq<Edge>, pm: PointerMap, anc: set<NodeId>): (r: Result<()>)
    requires EdgesIn(h, es)
    ensures r.Err? ==> r.error == NotWellFormed
    ensures r.Ok? ==> EdgesLocallyComplete(h, es, pm.seqno.Keys)
    decreases h.nodes.Keys - anc, EdgesRank(es)
  {
    if es == [] then Ok(())
    else
      var _ :- CompleteEdge(h, es[0], pm, anc);
      CompleteEdges(h, es[1..], pm, anc)
  }

  // ---------------------------------------------------------------------
  // Entry points

  /** `check_well_formed`: the reachability pass, then the completeness pass. */
  function CheckWellFormed(h: Heap, e: Edge): (r: Result<()>)
    requires EdgeIn(h, e)
    ensures r.Err? ==> r.error == NotWellFormed
    ensures r.Ok? ==> ReachEdge(h, e, EmptyMap).Ok?
    ensures r.Ok? ==> EdgeLocallyComplete(h, e, ReachEdge(h, e, EmptyMap).value.seqno.Keys)
  {
    var pm :- ReachEdge(h, e, EmptyMap);
    CompleteEdge(h, e, pm, {})
  }

  /** `is_well_formed`: the same check, reported as a boolean. */
  predicate IsWellFormed(h: Heap, e: Edge)
    requires EdgeIn(h, e)
  {
    CheckWellFormed(h, e).Ok?
  }
}
