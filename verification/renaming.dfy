/**
 Renaming a tree through the numbers it was written with.

 Writing a tree gives every owned node `n` a sequence number `pm[n]`;
 reading it back registers, under each number, the node rebuilt from that
 record (`m`). The rebuilt counterpart of `n` is therefore `m[pm[n]]`.
 A node's skeleton is the node phase one of reading builds: owning edges
 renamed, links still empty. Its full renaming also points every link at
 the counterpart of its target.
 */
module Renaming {
  import opened Results
  import opened Graph
  import opened PointerMaps

  /** The counterpart of a slot's node, or empty if it has none. */
  function Re(pm: PointerMap, m: map<int, NodeId>, x: Option<NodeId>): (r: Option<NodeId>)
    ensures r.Some? <==> x.Some? && x.value in pm.seqno && pm.seqno[x.value] in m
  {
    if x.Some? && x.value in pm.seqno && pm.seqno[x.value] in m then Some(m[pm.seqno[x.value]]) else None
  }

  function ReSlots(pm: PointerMap, m: map<int, NodeId>, xs: seq<Option<NodeId>>): (r: seq<Option<NodeId>>)
    ensures |r| == |xs|
  {
    if xs == [] then [] else [Re(pm, m, xs[0])] + ReSlots(pm, m, xs[1..])
  }

  /** An edge as phase one of reading rebuilds it: links are empty until restored. */
  function SkelEdge(pm: PointerMap, m: map<int, NodeId>, e: Edge): (r: Edge)
    ensures r.Kind() == e.Kind()
  {
    match e
    case MaybeEdge(x) => MaybeEdge(Re(pm, m, x))
    case OneEdge(x) => OneEdge(Re(pm, m, x))
    case AnyEdge(xs) => AnyEdge(ReSlots(pm, m, xs))
    case ManyEdge(xs) => ManyEdge(ReSlots(pm, m, xs))
    case OptLinkEdge(_) => OptLinkEdge(None)
    case LinkEdge(_) => LinkEdge(None)
  }

  function SkelEdges(pm: PointerMap, m: map<int, NodeId>, es: seq<Edge>): (r: seq<Edge>)
    ensures |r| == |es|
  {
    if es == [] then [] else [SkelEdge(pm, m, es[0])] + SkelEdges(pm, m, es[1..])
  }

  function SkelNode(pm: PointerMap, m: map<int, NodeId>, n: Node): Node {
    Node(n.payload, SkelEdges(pm, m, n.edges))
  }

  /** An edge with every owned node and every observed node replaced by its counterpart. */
  function RenameEdge(pm: PointerMap, m: map<int, NodeId>, e: Edge): (r: Edge)
    ensures r.Kind() == e.Kind()
  {
    match e
    case OptLinkEdge(l) => OptLinkEdge(Re(pm, m, l))
    case LinkEdge(l) => LinkEdge(Re(pm, m, l))
    case _ => SkelEdge(pm, m, e)
  }

  function RenameEdges(pm: PointerMap, m: map<int, NodeId>, es: seq<Edge>): (r: seq<Edge>)
    ensures |r| == |es|
  {
    if es == [] then [] else [RenameEdge(pm, m, es[0])] + RenameEdges(pm, m, es[1..])
  }

  function RenameNode(pm: PointerMap, m: map<int, NodeId>, n: Node): Node {
    Node(n.payload, RenameEdges(pm, m, n.edges))
  }

  /** `m` and `m'` give the same counterpart to every node of `t`. */
  predicate AgreeOn(pm: PointerMap, m: map<int, NodeId>, m': map<int, NodeId>, t: set<NodeId>) {
    forall n :: n in t ==> Re(pm, m, Some(n)) == Re(pm, m', Some(n))
  }

  /** The skeleton of edges depends only on the counterparts of the nodes they own. */
  lemma {:induction false} SkelSlotsFrame(pm: PointerMap, m: map<int, NodeId>, m': map<int, NodeId>, t: set<NodeId>, xs: seq<Option<NodeId>>)
    requires AgreeOn(pm, m, m', t) && SlotsTargets(xs) <= t
    ensures ReSlots(pm, m, xs) == ReSlots(pm, m', xs)
  {
    if xs != [] {
      SkelSlotsFrame(pm, m, m', t, xs[1..]);
      if xs[0].Some? {
        assert xs[0].value in t;
      }
    }
  }

  lemma SkelEdgeFrame(pm: PointerMap, m: map<int, NodeId>, m': map<int, NodeId>, t: set<NodeId>, e: Edge)
    requires AgreeOn(pm, m, m', t) && EdgeTargets(e) <= t
    ensures SkelEdge(pm, m, e) == SkelEdge(pm, m', e)
  {
    if e.IsSingle() && e.target.Some? {
      assert e.target.value in t;
    } else if e.IsSequence() {
      SkelSlotsFrame(pm, m, m', t, e.elems);
    }
  }

  lemma {:induction false} SkelEdgesFrame(pm: PointerMap, m: map<int, NodeId>, m': map<int, NodeId>, t: set<NodeId>, es: seq<Edge>)
    requires AgreeOn(pm, m, m', t) && EdgesTargets(es) <= t
    ensures SkelEdges(pm, m, es) == SkelEdges(pm, m', es)
  {
    if es != [] {
      SkelEdgesFrame(pm, m, m', t, es[1..]);
      SkelEdgeFrame(pm, m, m', t, es[0]);
    }
  }

  /** Pointwise views of the recursive definitions. */
  lemma {:induction false} SkelEdgesAt(pm: PointerMap, m: map<int, NodeId>, es: seq<Edge>, j: nat)
    requires j < |es|
    ensures SkelEdges(pm, m, es)[j] == SkelEdge(pm, m, es[j])
  {
    if j > 0 {
      SkelEdgesAt(pm, m, es[1..], j - 1);
    }
  }

  lemma {:induction false} RenameEdgesAt(pm: PointerMap, m: map<int, NodeId>, es: seq<Edge>, j: nat)
    requires j < |es|
    ensures RenameEdges(pm, m, es)[j] == RenameEdge(pm, m, es[j])
  {
    if j > 0 {
      RenameEdgesAt(pm, m, es[1..], j - 1);
    }
  }

  lemma {:induction false} ReSlotsAt(pm: PointerMap, m: map<int, NodeId>, xs: seq<Option<NodeId>>, i: nat)
    requires i < |xs|
    ensures ReSlots(pm, m, xs)[i] == Re(pm, m, xs[i])
  {
    if i > 0 {
      ReSlotsAt(pm, m, xs[1..], i - 1);
    }
  }
}
