/**
 The object graph that the edge containers live in.

 A node is identified by its address (`NodeId`); the heap maps every live
 address to its node. Generated node classes are replaced by one generic
 node: a payload (standing for the type name and scalar fields) and an
 ordered list of edges (standing for the generated fields).
 */
module Graph {
  import opened Results

  /** Identity of a node: the address of the object an edge refers to. */
  type NodeId = nat

  /** The six edge containers; a sequence edge stores `One` elements. */
  datatype EdgeKind = MaybeKind | OneKind | AnyKind | ManyKind | OptLinkKind | LinkKind

  /**
   An edge as stored in a node. `Maybe`/`One` hold an owning handle,
   `Any`/`Many` a vector of `One` handles (each of which may be empty),
   `OptLink`/`Link` a weak handle that may point at a node that is gone.
   */
  datatype Edge =
    | MaybeEdge(target: Option<NodeId>)
    | OneEdge(target: Option<NodeId>)
    | AnyEdge(elems: seq<Option<NodeId>>)
    | ManyEdge(elems: seq<Option<NodeId>>)
    | OptLinkEdge(link: Option<NodeId>)
    | LinkEdge(link: Option<NodeId>)
  {
    function Kind(): EdgeKind {
      match this
      case MaybeEdge(_) => MaybeKind
      case OneEdge(_) => OneKind
      case AnyEdge(_) => AnyKind
      case ManyEdge(_) => ManyKind
      case OptLinkEdge(_) => OptLinkKind
      case LinkEdge(_) => LinkKind
    }

    predicate IsSingle() {
      MaybeEdge? || OneEdge?
    }

    predicate IsSequence() {
      AnyEdge? || ManyEdge?
    }

    predicate IsLink() {
      OptLinkEdge? || LinkEdge?
    }
  }

  /** A generated node: payload plus its fields, in declaration order. */
  datatype Node = Node(payload: string, edges: seq<Edge>)

  /** The node a single owning slot keeps alive, if any. */
  function SlotTargets(x: Option<NodeId>): set<NodeId> {
    if x.Some? then {x.value} else {}
  }

  /** The nodes the elements of an `Any`/`Many` keep alive. */
  function SlotsTargets(xs: seq<Option<NodeId>>): set<NodeId> {
    if xs == [] then {} else SlotTargets(xs[0]) + SlotsTargets(xs[1..])
  }

  /** The nodes an edge owns; weak edges own nothing. */
  function EdgeTargets(e: Edge): set<NodeId> {
    if e.IsSingle() then SlotTargets(e.target)
    else if e.IsSequence() then SlotsTargets(e.elems)
    else {}
  }

  function EdgesTargets(es: seq<Edge>): set<NodeId> {
    if es == [] then {} else EdgeTargets(es[0]) + EdgesTargets(es[1..])
  }

  /** The children a node owns through all of its owning edges. */
  function OwnedTargets(n: Node): set<NodeId> {
    EdgesTargets(n.edges)
  }

  /** The node a single owning slot holds, as a list of at most one element. */
  function Held(x: Option<NodeId>): seq<NodeId> {
    if x.Some? then [x.value] else []
  }

  /** The nodes held by the filled elements of an `Any`/`Many`, in order. */
  function Filled(xs: seq<Option<NodeId>>): (r: seq<NodeId>)
    ensures |r| <= |xs|
  {
    if xs == [] then [] else Held(xs[0]) + Filled(xs[1..])
  }

  /** `Filled` lists exactly the nodes the elements own. */
  lemma {:induction false} FilledOwned(xs: seq<Option<NodeId>>)
    ensures forall n :: n in Filled(xs) <==> n in SlotsTargets(xs)
  {
    if xs != [] {
      FilledOwned(xs[1..]);
    }
  }

  /**
   The live objects and the allocator's next fresh address. Every address
   handed out so far is below `next`.
   */
  datatype Store = Store(nodes: map<NodeId, Node>, next: NodeId)

  /**
   An owning handle always refers to a live object, and live objects have
   addresses the allocator has already handed out.
   */
  predicate Closed(s: Store) {
    forall id :: id in s.nodes ==> id < s.next && OwnedTargets(s.nodes[id]) <= s.nodes.Keys
  }

  type Heap = s: Store | Closed(s) witness Store(map[], 0)

  /** A slot that, if filled, refers to a live node. */
  predicate SlotIn(h: Heap, x: Option<NodeId>) {
    SlotTargets(x) <= h.nodes.Keys
  }

  predicate EdgeIn(h: Heap, e: Edge) {
    EdgeTargets(e) <= h.nodes.Keys
  }

  predicate EdgesIn(h: Heap, es: seq<Edge>) {
    EdgesTargets(es) <= h.nodes.Keys
  }

  /** A weak handle is usable only while its target is alive. */
  predicate Live(h: Heap, l: Option<NodeId>) {
    l.Some? && l.value in h.nodes
  }

  /** `OptLink::empty()`: the observed node is gone, or was never set. */
  predicate LinkEmpty(h: Heap, l: Option<NodeId>) {
    !Live(h, l)
  }

  /** What locking a weak handle yields: the target, or null once it expired. */
  function LiveKey(h: Heap, l: Option<NodeId>): (r: Option<NodeId>)
    ensures r.Some? <==> Live(h, l)
    ensures r.Some? ==> r == l
  {
    if Live(h, l) then l else None
  }

  /** Helper facts about the target sets, used by the walks. */
  lemma {:induction false} SlotsTargetsMember(xs: seq<Option<NodeId>>, i: nat)
    requires i < |xs|
    ensures SlotTargets(xs[i]) <= SlotsTargets(xs)
  {
    if i > 0 {
      SlotsTargetsMember(xs[1..], i - 1);
      assert xs[1..][i - 1] == xs[i];
    }
  }

  lemma {:induction false} EdgesTargetsMember(es: seq<Edge>, i: nat)
    requires i < |es|
    ensures EdgeTargets(es[i]) <= EdgesTargets(es)
  {
    if i > 0 {
      EdgesTargetsMember(es[1..], i - 1);
      assert es[1..][i - 1] == es[i];
    }
  }
}
