/**
 The round trip: reading back what `serialize` wrote rebuilds the same
 tree up to renaming. Every node reachable from the root gets a distinct
 counterpart with the same payload, its owning edges own the counterparts
 of its children, its links observe the counterparts of their targets, and
 the rebuilt tree passes validation.

 The proof follows the writer. Decoding the record written for a subtree
 (`New(a, b)` of the reachability pass) allocates a fresh counterpart for
 each node of the subtree, registers it under the node's number, and
 queues each of its links with the number of the link's target (`Sim`).
 `restore_links` then turns every skeleton into the full renaming.
 */
module RoundTrip {
  import opened Results
  import opened Graph
  import opened PointerMaps
  import opened Validation
  import opened Records
  import opened Serdes
  import opened Renaming
  import opened Transport
  import opened SerdesProps

  /** The schema lists, for each node's type, the kinds of its fields. */
  predicate KindsMatch(kinds: seq<EdgeKind>, es: seq<Edge>) {
    |kinds| == |es| && forall j :: 0 <= j < |es| ==> kinds[j] == es[j].Kind()
  }

  predicate Conforms(sch: Schema, h: Heap) {
    forall n :: n in h.nodes ==> h.nodes[n].payload in sch && KindsMatch(sch[h.nodes[n].payload], h.nodes[n].edges)
  }

  /** The number a link is written with, if it has one. */
  function Num(pm: PointerMap, l: Option<NodeId>): int {
    if l.Some? && l.value in pm.seqno then pm.seqno[l.value] else -1
  }

  // ---------------------------------------------------------------------
  // The decoder's progress over a subtree

  /** Nodes outside `s` keep their counterpart. */
  predicate Unchanged(pm: PointerMap, m: map<int, NodeId>, m': map<int, NodeId>, s: set<NodeId>) {
    forall n :: n in pm.seqno && n !in s ==> Re(pm, m, Some(n)) == Re(pm, m', Some(n))
  }

  /** Each node of `s` has a counterpart allocated after `H`, holding the node's skeleton. */
  predicate Built(h: Heap, pm: PointerMap, s: set<NodeId>, H: Heap, st: DState) {
    forall n :: n in s ==>
      && n in h.nodes
      && Mapped(pm, st.ids.nodes, n, st.heap.nodes.Keys - H.nodes.Keys)
      && st.heap.nodes[Re(pm, st.ids.nodes, Some(n)).value] == SkelNode(pm, st.ids.nodes, h.nodes[n])
  }

  predicate Distinct(pm: PointerMap, m: map<int, NodeId>, s: set<NodeId>) {
    forall n, n' :: n in s && n' in s && n != n' ==> Re(pm, m, Some(n)) != Re(pm, m, Some(n'))
  }

  /** Every link of every node of `s` is queued at its counterpart with the number of its target. */
  predicate Covered(h: Heap, pm: PointerMap, s: set<NodeId>, st: DState) {
    forall n, j :: n in s && n in h.nodes && 0 <= j < |h.nodes[n].edges| && h.nodes[n].edges[j].IsLink() ==>
      exists p :: p in st.ids.links && Some(p.owner) == Re(pm, st.ids.nodes, Some(n)) && p.index == j &&
                  p.id == Num(pm, h.nodes[n].edges[j].link)
  }

  /** Every queued number was given to some node. */
  predicate Numbered(pm: PointerMap, links: seq<Pending>) {
    forall p :: p in links ==> exists t :: t in pm.seqno && pm.seqno[t] == p.id
  }

  predicate Sim(h: Heap, pm: PointerMap, s: set<NodeId>, st: DState, st': DState) {
    && Extends(st.heap, st'.heap)
    && (forall p :: p in st.ids.links ==> p in st'.ids.links)
    && (Numbered(pm, st.ids.links) ==> Numbered(pm, st'.ids.links))
    && Unchanged(pm, st.ids.nodes, st'.ids.nodes, s)
    && Built(h, pm, s, st.heap, st')
    && Distinct(pm, st'.ids.nodes, s)
    && Covered(h, pm, s, st')
  }

  lemma ExtendsTrans(h0: Heap, h1: Heap, h2: Heap)
    requires Extends(h0, h1) && Extends(h1, h2)
    ensures Extends(h0, h2)
  {
  }

  /** Decoding nothing: a pass that registered no node. */
  lemma SimRefl(h: Heap, pm: PointerMap, a: PointerMap, b: PointerMap, st: DState)
    requires b == a
    ensures Sim(h, pm, New(a, b), st, st)
  {
    assert New(a, b) == {};
  }

  /** Decoding two disjoint subtrees one after the other decodes their union. */
  lemma SimCompose(h: Heap, pm: PointerMap, s1: set<NodeId>, s2: set<NodeId>, st: DState, st1: DState, st2: DState)
    requires Sim(h, pm, s1, st, st1) && Sim(h, pm, s2, st1, st2)
    requires s1 !! s2
    requires forall n :: n in s1 ==> n in h.nodes && OwnedTargets(h.nodes[n]) <= s1
    ensures Sim(h, pm, s1 + s2, st, st2)
  {
    ExtendsTrans(st.heap, st1.heap, st2.heap);
    ComposeBuilt(h, pm, s1, s2, st, st1, st2);
    ComposeCovered(h, pm, s1, s2, st1, st2);
  }

  /** The first subtree's skeletons survive decoding the second. */
  lemma ComposeBuilt(h: Heap, pm: PointerMap, s1: set<NodeId>, s2: set<NodeId>, st: DState, st1: DState, st2: DState)
    requires Extends(st.heap, st1.heap) && Extends(st1.heap, st2.heap)
    requires Unchanged(pm, st.ids.nodes, st1.ids.nodes, s1) && Unchanged(pm, st1.ids.nodes, st2.ids.nodes, s2)
    requires Built(h, pm, s1, st.heap, st1) && Built(h, pm, s2, st1.heap, st2)
    requires Distinct(pm, st1.ids.nodes, s1) && Distinct(pm, st2.ids.nodes, s2)
    requires s1 !! s2 && s1 <= pm.seqno.Keys
    requires forall n :: n in s1 ==> n in h.nodes && OwnedTargets(h.nodes[n]) <= s1
    ensures Unchanged(pm, st.ids.nodes, st2.ids.nodes, s1 + s2)
    ensures Built(h, pm, s1 + s2, st.heap, st2) && Distinct(pm, st2.ids.nodes, s1 + s2)
  {
    var m1, m2 := st1.ids.nodes, st2.ids.nodes;
    assert AgreeOn(pm, m1, m2, s1);
    forall n | n in s1
      ensures st2.heap.nodes[Re(pm, m2, Some(n)).value] == SkelNode(pm, m2, h.nodes[n])
    {
      SkelEdgesFrame(pm, m1, m2, s1, h.nodes[n].edges);
    }
    ComposeDistinct(h, pm, s1, s2, st, st1, st2);
  }

  /** Counterparts from the two pieces lie in disjoint stretches of the heap. */
  lemma ComposeDistinct(h: Heap, pm: PointerMap, s1: set<NodeId>, s2: set<NodeId>, st: DState, st1: DState, st2: DState)
    requires Extends(st1.heap, st2.heap)
    requires Unchanged(pm, st1.ids.nodes, st2.ids.nodes, s2)
    requires Built(h, pm, s1, st.heap, st1) && Built(h, pm, s2, st1.heap, st2)
    requires Distinct(pm, st1.ids.nodes, s1) && Distinct(pm, st2.ids.nodes, s2)
    requires s1 !! s2
    ensures Distinct(pm, st2.ids.nodes, s1 + s2)
  {
    var m1, m2 := st1.ids.nodes, st2.ids.nodes;
    forall n, n' | n in s1 + s2 && n' in s1 + s2 && n != n' ensures Re(pm, m2, Some(n)) != Re(pm, m2, Some(n')) {
      if n in s1 && n' in s2 {
        assert Mapped(pm, m1, n, st1.heap.nodes.Keys);
      } else if n in s2 && n' in s1 {
        assert Mapped(pm, m1, n', st1.heap.nodes.Keys);
      }
    }
  }

  /** The links queued for the first subtree stay queued while the second is decoded. */
  lemma ComposeCovered(h: Heap, pm: PointerMap, s1: set<NodeId>, s2: set<NodeId>, st1: DState, st2: DState)
    requires Covered(h, pm, s1, st1) && Covered(h, pm, s2, st2)
    requires forall p :: p in st1.ids.links ==> p in st2.ids.links
    requires Unchanged(pm, st1.ids.nodes, st2.ids.nodes, s2) && s1 !! s2 && s1 <= pm.seqno.Keys
    ensures Covered(h, pm, s1 + s2, st2)
  {
    var m1, m2 := st1.ids.nodes, st2.ids.nodes;
    forall n, j | n in s1 && n in h.nodes && 0 <= j < |h.nodes[n].edges| && h.nodes[n].edges[j].IsLink()
      ensures exists p :: p in st2.ids.links && Some(p.owner) == Re(pm, m2, Some(n)) && p.index == j &&
                          p.id == Num(pm, h.nodes[n].edges[j].link)
    {
      var p :| p in st1.ids.links && Some(p.owner) == Re(pm, m1, Some(n)) && p.index == j &&
               p.id == Num(pm, h.nodes[n].edges[j].link);
      assert p in st2.ids.links;
    }
  }

  /**
   Allocating the counterpart of `c` after its children were decoded:
   the new node holds `c`'s skeleton and `c`'s links are queued at it.
   */
  lemma AllocSim(h: Heap, pm: PointerMap, c: NodeId, st1: DState, pend: seq<Pending>)
    requires Valid(pm) && c in pm.seqno && c in h.nodes
    requires c !in OwnedTargets(h.nodes[c])
    requires OwnedTargets(SkelNode(pm, st1.ids.nodes, h.nodes[c])) <= st1.heap.nodes.Keys
    requires forall p :: p in pend ==> p.owner == st1.heap.next && p.index < |h.nodes[c].edges| && h.nodes[c].edges[p.index].IsLink()
    requires forall a, b :: 0 <= a < b < |pend| ==> pend[a].index < pend[b].index
    requires forall j :: 0 <= j < |h.nodes[c].edges| && h.nodes[c].edges[j].IsLink() ==>
               exists p :: p in pend && p.index == j && p.id == Num(pm, h.nodes[c].edges[j].link)
    requires Numbered(pm, pend)
    ensures forall p :: p in pend ==>
              p.index < |SkelNode(pm, st1.ids.nodes, h.nodes[c]).edges| && SkelNode(pm, st1.ids.nodes, h.nodes[c]).edges[p.index].IsLink()
    ensures Sim(h, pm, {c}, st1, Allocate(st1, SkelNode(pm, st1.ids.nodes, h.nodes[c]), pend, pm.seqno[c]))
  {
    var sk := SkelNode(pm, st1.ids.nodes, h.nodes[c]);
    forall p | p in pend ensures p.index < |sk.edges| && sk.edges[p.index].IsLink() {
      SkelEdgesAt(pm, st1.ids.nodes, h.nodes[c].edges, p.index);
    }
    var st2 := Allocate(st1, sk, pend, pm.seqno[c]);
    AllocBuilt(h, pm, c, st1, st2);
    AllocCovered(h, pm, c, st1, pend, st2);
  }

  /** The new node is the only counterpart that changed, and it holds `c`'s skeleton. */
  lemma AllocBuilt(h: Heap, pm: PointerMap, c: NodeId, st1: DState, st2: DState)
    requires Valid(pm) && c in pm.seqno && c in h.nodes && c !in OwnedTargets(h.nodes[c])
    requires st2.ids.nodes == st1.ids.nodes[pm.seqno[c] := st1.heap.next]
    requires st2.heap.nodes == st1.heap.nodes[st1.heap.next := SkelNode(pm, st1.ids.nodes, h.nodes[c])]
    ensures Unchanged(pm, st1.ids.nodes, st2.ids.nodes, {c})
    ensures Built(h, pm, {c}, st1.heap, st2) && Distinct(pm, st2.ids.nodes, {c})
  {
    var m1, m2 := st1.ids.nodes, st2.ids.nodes;
    var k := st1.heap.next;
    assert Re(pm, m2, Some(c)) == Some(k);
    assert k !in st1.heap.nodes;
    assert Unchanged(pm, m1, m2, {c});
    assert AgreeOn(pm, m1, m2, OwnedTargets(h.nodes[c]));
    SkelEdgesFrame(pm, m1, m2, OwnedTargets(h.nodes[c]), h.nodes[c].edges);
    assert st2.heap.nodes[k] == SkelNode(pm, m2, h.nodes[c]);
  }

  /** The links of `c` are queued at its counterpart, and nothing queued before is lost. */
  lemma AllocCovered(h: Heap, pm: PointerMap, c: NodeId, st1: DState, pend: seq<Pending>, st2: DState)
    requires Valid(pm) && c in pm.seqno && c in h.nodes
    requires st2.ids.nodes == st1.ids.nodes[pm.seqno[c] := st1.heap.next]
    requires st2.ids.links == st1.ids.links + pend
    requires forall p :: p in pend ==> p.owner == st1.heap.next
    requires forall j :: 0 <= j < |h.nodes[c].edges| && h.nodes[c].edges[j].IsLink() ==>
               exists p :: p in pend && p.index == j && p.id == Num(pm, h.nodes[c].edges[j].link)
    requires Numbered(pm, pend)
    ensures forall p :: p in st1.ids.links ==> p in st2.ids.links
    ensures Numbered(pm, st1.ids.links) ==> Numbered(pm, st2.ids.links)
    ensures Covered(h, pm, {c}, st2)
  {
    assert Re(pm, st2.ids.nodes, Some(c)) == Some(st1.heap.next);
    forall j | 0 <= j < |h.nodes[c].edges| && h.nodes[c].edges[j].IsLink()
      ensures exists p :: p in st2.ids.links && Some(p.owner) == Re(pm, st2.ids.nodes, Some(c)) && p.index == j &&
                          p.id == Num(pm, h.nodes[c].edges[j].link)
    {
      var p :| p in pend && p.index == j && p.id == Num(pm, h.nodes[c].edges[j].link);
      assert p in st2.ids.links;
    }
  }

  // ---------------------------------------------------------------------
  // Reading back what was written

  /** The `@l` of the record written for a link is the number of the link's target. */
  lemma {:induction false} EmittedLinkId(h: Heap, es: seq<Edge>, pm: PointerMap, anc: set<NodeId>, k: nat)
    requires EdgesIn(h, es) && EmitEdges(h, es, pm, anc).Ok?
    requires k < |es| && es[k].IsLink()
    ensures LinkId(EmitEdges(h, es, pm, anc).value[k]) == Ok(Num(pm, es[k].link))
    ensures exists t :: t in pm.seqno && pm.seqno[t] == Num(pm, es[k].link)
    decreases k
  {
    if k == 0 {
      var fs := [Field("@T", Str(Tag(es[0].Kind()))), Field("@l", Int(Num(pm, es[0].link)))];
      assert EmitEdge(h, es[0], pm, anc).value == Rec(fs);
      AtDistinct(fs, 1);
      assert es[0].link.value in pm.seqno;
    } else {
      assert es[1..][k - 1] == es[k];
      EmittedLinkId(h, es[1..], pm, anc, k - 1);
    }
  }

  /** Every link record written for a node carries a readable number. */
  lemma LinkIdsReadable(h: Heap, es: seq<Edge>, kinds: seq<EdgeKind>, pm: PointerMap, anc: set<NodeId>, owner: NodeId)
    requires EdgesIn(h, es) && EmitEdges(h, es, pm, anc).Ok? && KindsMatch(kinds, es)
    ensures |EmitEdges(h, es, pm, anc).value| == |kinds|
    ensures PendingLinks(owner, EmitEdges(h, es, pm, anc).value, kinds, 0).Ok?
  {
    var evs := EmitEdges(h, es, pm, anc).value;
    forall k | 0 <= k < |kinds| && IsLinkKind(kinds[k]) ensures LinkId(evs[k]).Ok? {
      assert es[k].IsLink();
      EmittedLinkId(h, es, pm, anc, k);
    }
  }

  /** The entry queued for link field `j` carries the number of the link's target. */
  lemma QueuedLinkAt(h: Heap, es: seq<Edge>, kinds: seq<EdgeKind>, pm: PointerMap, anc: set<NodeId>, owner: NodeId, j: nat)
    returns (p: Pending)
    requires EdgesIn(h, es) && EmitEdges(h, es, pm, anc).Ok? && KindsMatch(kinds, es)
    requires PendingLinks(owner, EmitEdges(h, es, pm, anc).value, kinds, 0).Ok?
    requires j < |es| && es[j].IsLink()
    ensures p in PendingLinks(owner, EmitEdges(h, es, pm, anc).value, kinds, 0).value
    ensures p.index == j && p.id == Num(pm, es[j].link)
  {
    var evs := EmitEdges(h, es, pm, anc).value;
    var pend := PendingLinks(owner, evs, kinds, 0).value;
    assert IsLinkKind(kinds[j]);
    EmittedLinkId(h, es, pm, anc, j);
    p :| p in pend && p.index == j && LinkId(evs[j]) == Ok(p.id);
  }

  lemma QueuedLinksCover(h: Heap, es: seq<Edge>, kinds: seq<EdgeKind>, pm: PointerMap, anc: set<NodeId>, owner: NodeId)
    requires EdgesIn(h, es) && EmitEdges(h, es, pm, anc).Ok? && KindsMatch(kinds, es)
    requires PendingLinks(owner, EmitEdges(h, es, pm, anc).value, kinds, 0).Ok?
    ensures var pend := PendingLinks(owner, EmitEdges(h, es, pm, anc).value, kinds, 0).value;
            forall j :: 0 <= j < |es| && es[j].IsLink() ==>
              exists p :: p in pend && p.index == j && p.id == Num(pm, es[j].link)
  {
    var pend := PendingLinks(owner, EmitEdges(h, es, pm, anc).value, kinds, 0).value;
    forall j | 0 <= j < |es| && es[j].IsLink()
      ensures exists p :: p in pend && p.index == j && p.id == Num(pm, es[j].link)
    {
      var p := QueuedLinkAt(h, es, kinds, pm, anc, owner, j);
    }
  }

  /** A queued entry's number is the number of the target of the link it designates. */
  lemma QueuedNumber(h: Heap, es: seq<Edge>, kinds: seq<EdgeKind>, pm: PointerMap, anc: set<NodeId>, owner: NodeId, p: Pending)
    requires EdgesIn(h, es) && EmitEdges(h, es, pm, anc).Ok? && KindsMatch(kinds, es)
    requires PendingLinks(owner, EmitEdges(h, es, pm, anc).value, kinds, 0).Ok?
    requires p in PendingLinks(owner, EmitEdges(h, es, pm, anc).value, kinds, 0).value
    ensures exists t :: t in pm.seqno && pm.seqno[t] == p.id
  {
    assert IsLinkKind(kinds[p.index]);
    EmittedLinkId(h, es, pm, anc, p.index);
  }

  lemma QueuedLinksNumbered(h: Heap, es: seq<Edge>, kinds: seq<EdgeKind>, pm: PointerMap, anc: set<NodeId>, owner: NodeId)
    requires EdgesIn(h, es) && EmitEdges(h, es, pm, anc).Ok? && KindsMatch(kinds, es)
    requires PendingLinks(owner, EmitEdges(h, es, pm, anc).value, kinds, 0).Ok?
    ensures Numbered(pm, PendingLinks(owner, EmitEdges(h, es, pm, anc).value, kinds, 0).value)
  {
    var pend := PendingLinks(owner, EmitEdges(h, es, pm, anc).value, kinds, 0).value;
    forall p | p in pend ensures exists t :: t in pm.seqno && pm.seqno[t] == p.id {
      QueuedNumber(h, es, kinds, pm, anc, owner, p);
    }
  }

  /** The links a written node's record queues: one per link field, with its target's number. */
  lemma QueuedLinks(h: Heap, es: seq<Edge>, kinds: seq<EdgeKind>, pm: PointerMap, anc: set<NodeId>, owner: NodeId)
    returns (pend: seq<Pending>)
    requires EdgesIn(h, es) && EmitEdges(h, es, pm, anc).Ok? && KindsMatch(kinds, es)
    ensures |EmitEdges(h, es, pm, anc).value| == |kinds|
    ensures PendingLinks(owner, EmitEdges(h, es, pm, anc).value, kinds, 0) == Ok(pend)
    ensures forall p :: p in pend ==> p.owner == owner && p.index < |es| && es[p.index].IsLink()
    ensures forall i, j :: 0 <= i < j < |pend| ==> pend[i].index < pend[j].index
    ensures forall j :: 0 <= j < |es| && es[j].IsLink() ==>
              exists p :: p in pend && p.index == j && p.id == Num(pm, es[j].link)
    ensures Numbered(pm, pend)
  {
    LinkIdsReadable(h, es, kinds, pm, anc, owner);
    QueuedLinksCover(h, es, kinds, pm, anc, owner);
    QueuedLinksNumbered(h, es, kinds, pm, anc, owner);
    pend := PendingLinks(owner, EmitEdges(h, es, pm, anc).value, kinds, 0).value;
    forall p | p in pend ensures p.owner == owner && p.index < |es| && es[p.index].IsLink() {
      assert IsLinkKind(kinds[p.index]);
    }
  }

  // Single steps of the simulation, each proved in a small context.

  /** Decoding two consecutive pieces of the writer's output decodes their union. */
  lemma SimSeq(h: Heap, pm: PointerMap, a: PointerMap, a1: PointerMap, b: PointerMap, st: DState, st0: DState, st1: DState)
    requires Grows(h, a, a1) && Grows(h, a1, b)
    requires Sim(h, pm, New(a, a1), st, st0) && Sim(h, pm, New(a1, b), st0, st1)
    ensures Sim(h, pm, New(a, b), st, st1)
    ensures AgreeOn(pm, st0.ids.nodes, st1.ids.nodes, New(a, a1))
  {
    SimCompose(h, pm, New(a, a1), New(a1, b), st, st0, st1);
    assert New(a, b) == New(a, a1) + New(a1, b);
  }

  /** The record written for a present node. */
  lemma EmittedNode(h: Heap, c: NodeId, tag: string, pm: PointerMap, anc: set<NodeId>)
    requires c in h.nodes && EmitSlot(h, Some(c), tag, pm, anc).Ok?
    ensures c in pm.seqno && EmitEdges(h, h.nodes[c].edges, pm, anc + {c}).Ok?
    ensures var fs := EmitSlot(h, Some(c), tag, pm, anc).value;
            && At(fs, "@T") == Ok(Str(tag)) && At(fs, "@t") == Ok(Str(h.nodes[c].payload))
            && At(fs, "@e") == Ok(Arr(EmitEdges(h, h.nodes[c].edges, pm, anc + {c}).value))
            && At(fs, "@i") == Ok(Int(pm.seqno[c]))
  {
    var evs := EmitEdges(h, h.nodes[c].edges, pm, anc + {c}).value;
    var fs := [Field("@T", Str(tag)), Field("@i", Int(pm.seqno[c])), Field("@t", Str(h.nodes[c].payload)), Field("@e", Arr(evs))];
    assert EmitSlot(h, Some(c), tag, pm, anc).value == fs;
    AtDistinct(fs, 2);
    AtDistinct(fs, 3);
  }

  /** Allocating a node after its edges were decoded. */
  lemma NodeStep(sch: Schema, h: Heap, c: NodeId, tag: string, a: PointerMap, a1: PointerMap, b: PointerMap,
                 pm: PointerMap, anc: set<NodeId>, st: DState, dk: Decoded<seq<Edge>>)
    returns (d: Decoded<Option<NodeId>>)
    requires Conforms(sch, h) && Valid(pm) && c in h.nodes
    requires New(a, b) == New(a1, b) + {c} && c !in New(a1, b)
    requires ReachEdges(h, h.nodes[c].edges, a1) == Ok(b) && b.seqno.Keys <= pm.seqno.Keys
    requires EmitSlot(h, Some(c), tag, pm, anc).Ok? && EmitEdges(h, h.nodes[c].edges, pm, anc + {c}).Ok?
    requires DecodeEdges(sch, EmitEdges(h, h.nodes[c].edges, pm, anc + {c}).value, sch[h.nodes[c].payload], st) == Ok(dk)
    requires Sim(h, pm, New(a1, b), st, dk.st) && dk.val == SkelEdges(pm, dk.st.ids.nodes, h.nodes[c].edges)
    ensures DecodeSlot(sch, EmitSlot(h, Some(c), tag, pm, anc).value, tag, st) == Ok(d)
    ensures Sim(h, pm, New(a, b), st, d.st) && d.val == Re(pm, d.st.ids.nodes, Some(c))
  {
    var n := h.nodes[c];
    EmittedNode(h, c, tag, pm, anc);
    var evs := EmitEdges(h, n.edges, pm, anc + {c}).value;
    var c' := dk.st.heap.next;
    var pend := QueuedLinks(h, n.edges, sch[n.payload], pm, anc + {c}, c');
    NodeAllocSim(h, pm, c, a, a1, b, st, dk.st, pend);
    var st2 := Allocate(dk.st, Node(n.payload, dk.val), pend, pm.seqno[c]);
    DecodePresent(sch, EmitSlot(h, Some(c), tag, pm, anc).value, tag, st, n.payload, evs, pm.seqno[c], dk, pend);
    d := Decoded(Some(c'), st2);
  }

  /** Decoding `c`'s edges and then allocating `c` decodes `c`'s whole subtree. */
  lemma NodeAllocSim(h: Heap, pm: PointerMap, c: NodeId, a: PointerMap, a1: PointerMap, b: PointerMap,
                     st: DState, st1: DState, pend: seq<Pending>)
    requires Valid(pm) && c in pm.seqno && c in h.nodes
    requires New(a, b) == New(a1, b) + {c} && c !in New(a1, b)
    requires Grows(h, a1, b) && OwnedTargets(h.nodes[c]) <= New(a1, b)
    requires OwnedTargets(SkelNode(pm, st1.ids.nodes, h.nodes[c])) <= st1.heap.nodes.Keys
    requires forall p :: p in pend ==> p.owner == st1.heap.next && p.index < |h.nodes[c].edges| && h.nodes[c].edges[p.index].IsLink()
    requires forall i, j :: 0 <= i < j < |pend| ==> pend[i].index < pend[j].index
    requires forall j :: 0 <= j < |h.nodes[c].edges| && h.nodes[c].edges[j].IsLink() ==>
               exists p :: p in pend && p.index == j && p.id == Num(pm, h.nodes[c].edges[j].link)
    requires Numbered(pm, pend)
    requires Sim(h, pm, New(a1, b), st, st1)
    ensures forall p :: p in pend ==>
              p.index < |SkelNode(pm, st1.ids.nodes, h.nodes[c]).edges| && SkelNode(pm, st1.ids.nodes, h.nodes[c]).edges[p.index].IsLink()
    ensures var st2 := Allocate(st1, SkelNode(pm, st1.ids.nodes, h.nodes[c]), pend, pm.seqno[c]);
            Sim(h, pm, New(a, b), st, st2) && Re(pm, st2.ids.nodes, Some(c)) == Some(st1.heap.next)
  {
    AllocSim(h, pm, c, st1, pend);
    var st2 := Allocate(st1, SkelNode(pm, st1.ids.nodes, h.nodes[c]), pend, pm.seqno[c]);
    AllocCompose(h, pm, c, a, a1, b, st, st1, st2);
  }

  /** The decoder's path for a present node, given what its parts decode to. */
  lemma DecodePresent(sch: Schema, fs: seq<Field>, tag: string, st: DState, payload: string, evs: seq<Value>,
                      i: int, dk: Decoded<seq<Edge>>, pend: seq<Pending>)
    requires At(fs, "@T") == Ok(Str(tag)) && At(fs, "@t") == Ok(Str(payload)) && payload in sch
    requires At(fs, "@e") == Ok(Arr(evs)) && At(fs, "@i") == Ok(Int(i)) && |evs| == |sch[payload]|
    requires DecodeEdges(sch, evs, sch[payload], st) == Ok(dk)
    requires PendingLinks(dk.st.heap.next, evs, sch[payload], 0) == Ok(pend)
    ensures OwnedTargets(Node(payload, dk.val)) <= dk.st.heap.nodes.Keys
    ensures forall p :: p in pend ==> p.owner == dk.st.heap.next && p.index < |dk.val| && dk.val[p.index].IsLink()
    ensures DecodeSlot(sch, fs, tag, st) == Ok(Decoded(Some(dk.st.heap.next), Allocate(dk.st, Node(payload, dk.val), pend, i)))
  {
    LinksFitEdges(dk.val, sch[payload], pend, dk.st.heap.next);
    assert AsStr(Str(tag)) == Ok(tag) && AsStr(Str(payload)) == Ok(payload);
    assert AsArr(Arr(evs)) == Ok(evs) && AsInt(Int(i)) == Ok(i);
  }

  /** Allocating `c` after decoding its children decodes `c`'s whole subtree. */
  lemma AllocCompose(h: Heap, pm: PointerMap, c: NodeId, a: PointerMap, a1: PointerMap, b: PointerMap,
                     st: DState, st1: DState, st2: DState)
    requires New(a, b) == New(a1, b) + {c} && c !in New(a1, b) && Grows(h, a1, b)
    requires Sim(h, pm, New(a1, b), st, st1) && Sim(h, pm, {c}, st1, st2)
    ensures Sim(h, pm, New(a, b), st, st2)
  {
    SimCompose(h, pm, New(a1, b), {c}, st, st1, st2);
  }

  lemma {:induction false} DecodeSlotSim(sch: Schema, h: Heap, x: Option<NodeId>, tag: string,
                                         a: PointerMap, b: PointerMap, pm: PointerMap, anc: set<NodeId>, st: DState)
    returns (d: Decoded<Option<NodeId>>)
    requires Conforms(sch, h) && Valid(pm)
    requires SlotIn(h, x) && ReachSlot(h, x, a) == Ok(b)
    requires anc <= a.seqno.Keys && b.seqno.Keys <= pm.seqno.Keys
    requires EmitSlot(h, x, tag, pm, anc).Ok?
    ensures DecodeSlot(sch, EmitSlot(h, x, tag, pm, anc).value, tag, st) == Ok(d)
    ensures Sim(h, pm, New(a, b), st, d.st) && d.val == Re(pm, d.st.ids.nodes, x)
    decreases h.nodes.Keys - a.seqno.Keys, 0
  {
    match x
    case None =>
      SimRefl(h, pm, a, b, st);
      d := Decoded(None, st);
    case Some(c) =>
      var a1 := ReachSlotSome(h, c, a, b);
      EmittedNode(h, c, tag, pm, anc);
      var dk := DecodeEdgesSim(sch, h, h.nodes[c].edges, sch[h.nodes[c].payload], a1, b, pm, anc + {c}, st);
      d := NodeStep(sch, h, c, tag, a, a1, b, pm, anc, st, dk);
  }

  /** Decoding one more element of an `Any`/`Many`. */
  lemma SlotsStep(sch: Schema, h: Heap, xs: seq<Option<NodeId>>, a: PointerMap, a1: PointerMap, b: PointerMap,
                  pm: PointerMap, anc: set<NodeId>, st: DState, d0: Decoded<Option<NodeId>>, d1: Decoded<seq<Option<NodeId>>>)
    returns (d: Decoded<seq<Option<NodeId>>>)
    requires xs != [] && SlotsTargets(xs) <= h.nodes.Keys
    requires ReachSlot(h, xs[0], a) == Ok(a1) && ReachSlots(h, xs[1..], a1) == Ok(b)
    requires EmitSlots(h, xs, pm, anc).Ok?
    requires EmitSlot(h, xs[0], Tag(OneKind), pm, anc).Ok? && EmitSlots(h, xs[1..], pm, anc).Ok?
    requires DecodeSlot(sch, EmitSlot(h, xs[0], Tag(OneKind), pm, anc).value, Tag(OneKind), st) == Ok(d0)
    requires Sim(h, pm, New(a, a1), st, d0.st) && d0.val == Re(pm, d0.st.ids.nodes, xs[0])
    requires DecodeSlots(sch, EmitSlots(h, xs[1..], pm, anc).value, d0.st) == Ok(d1)
    requires Sim(h, pm, New(a1, b), d0.st, d1.st) && d1.val == ReSlots(pm, d1.st.ids.nodes, xs[1..])
    ensures DecodeSlots(sch, EmitSlots(h, xs, pm, anc).value, st) == Ok(d)
    ensures Sim(h, pm, New(a, b), st, d.st) && d.val == ReSlots(pm, d.st.ids.nodes, xs)
  {
    var vs := EmitSlots(h, xs, pm, anc).value;
    assert vs[0] == Rec(EmitSlot(h, xs[0], Tag(OneKind), pm, anc).value) && vs[1..] == EmitSlots(h, xs[1..], pm, anc).value;
    d := Decoded([d0.val] + d1.val, d1.st);
    SimSeq(h, pm, a, a1, b, st, d0.st, d1.st);
    if xs[0].Some? {
      assert xs[0].value in New(a, a1);
    }
  }

  lemma {:induction false} DecodeSlotsSim(sch: Schema, h: Heap, xs: seq<Option<NodeId>>,
                                          a: PointerMap, b: PointerMap, pm: PointerMap, anc: set<NodeId>, st: DState)
    returns (d: Decoded<seq<Option<NodeId>>>)
    requires Conforms(sch, h) && Valid(pm)
    requires SlotsTargets(xs) <= h.nodes.Keys && ReachSlots(h, xs, a) == Ok(b)
    requires anc <= a.seqno.Keys && b.seqno.Keys <= pm.seqno.Keys
    requires EmitSlots(h, xs, pm, anc).Ok?
    ensures DecodeSlots(sch, EmitSlots(h, xs, pm, anc).value, st) == Ok(d)
    ensures Sim(h, pm, New(a, b), st, d.st) && d.val == ReSlots(pm, d.st.ids.nodes, xs)
    decreases h.nodes.Keys - a.seqno.Keys, |xs| + 1
  {
    if xs == [] {
      SimRefl(h, pm, a, b, st);
      d := Decoded([], st);
    } else {
      var a1 := ReachSlotsCons(h, xs, a, b);
      var d0 := DecodeSlotSim(sch, h, xs[0], Tag(OneKind), a, a1, pm, anc, st);
      var d1 := DecodeSlotsSim(sch, h, xs[1..], a1, b, pm, anc, d0.st);
      d := SlotsStep(sch, h, xs, a, a1, b, pm, anc, st, d0, d1);
    }
  }

  /** The record written for an `Any`/`Many`. */
  lemma EmittedSequence(h: Heap, e: Edge, pm: PointerMap, anc: set<NodeId>)
    requires EdgeIn(h, e) && e.IsSequence() && EmitEdge(h, e, pm, anc).Ok?
    ensures EmitSlots(h, e.elems, pm, anc).Ok?
    ensures var fs := EmitEdge(h, e, pm, anc).value.fields;
            At(fs, "@T") == Ok(Str(Tag(e.Kind()))) && At(fs, "@d") == Ok(Arr(EmitSlots(h, e.elems, pm, anc).value))
  {
    var fs := [Field("@T", Str(Tag(e.Kind()))), Field("@d", Arr(EmitSlots(h, e.elems, pm, anc).value))];
    assert EmitEdge(h, e, pm, anc).value == Rec(fs);
    AtDistinct(fs, 1);
  }

  lemma {:induction false} DecodeEdgeSim(sch: Schema, h: Heap, e: Edge,
                                         a: PointerMap, b: PointerMap, pm: PointerMap, anc: set<NodeId>, st: DState)
    returns (d: Decoded<Edge>)
    requires Conforms(sch, h) && Valid(pm)
    requires EdgeIn(h, e) && ReachEdge(h, e, a) == Ok(b)
    requires anc <= a.seqno.Keys && b.seqno.Keys <= pm.seqno.Keys
    requires EmitEdge(h, e, pm, anc).Ok?
    ensures DecodeEdge(sch, EmitEdge(h, e, pm, anc).value, e.Kind(), st) == Ok(d)
    ensures Sim(h, pm, New(a, b), st, d.st) && d.val == SkelEdge(pm, d.st.ids.nodes, e)
    decreases h.nodes.Keys - a.seqno.Keys, EdgeRank(e)
  {
    if e.IsSingle() {
      var ds := DecodeSlotSim(sch, h, e.target, Tag(e.Kind()), a, b, pm, anc, st);
      d := SingleStep(sch, h, e, pm, anc, st, ds);
    } else if e.IsSequence() {
      EmittedSequence(h, e, pm, anc);
      var ds := DecodeSlotsSim(sch, h, e.elems, a, b, pm, anc, st);
      d := SequenceStep(sch, h, e, pm, anc, st, ds);
    } else {
      d := LinkStep(sch, h, e, a, b, pm, anc, st);
    }
  }

  /** A `Maybe`/`One` edge decodes as its slot does. */
  lemma SingleStep(sch: Schema, h: Heap, e: Edge, pm: PointerMap, anc: set<NodeId>, st: DState, ds: Decoded<Option<NodeId>>)
    returns (d: Decoded<Edge>)
    requires EdgeIn(h, e) && e.IsSingle() && EmitEdge(h, e, pm, anc).Ok?
    requires EmitSlot(h, e.target, Tag(e.Kind()), pm, anc).Ok?
    requires DecodeSlot(sch, EmitSlot(h, e.target, Tag(e.Kind()), pm, anc).value, Tag(e.Kind()), st) == Ok(ds)
    ensures DecodeEdge(sch, EmitEdge(h, e, pm, anc).value, e.Kind(), st) == Ok(d)
    ensures d.st == ds.st && d.val == (if e.MaybeEdge? then MaybeEdge(ds.val) else OneEdge(ds.val))
  {
    d := Decoded(if e.MaybeEdge? then MaybeEdge(ds.val) else OneEdge(ds.val), ds.st);
  }

  /** An `Any`/`Many` edge decodes as its elements do. */
  lemma SequenceStep(sch: Schema, h: Heap, e: Edge, pm: PointerMap, anc: set<NodeId>, st: DState, ds: Decoded<seq<Option<NodeId>>>)
    returns (d: Decoded<Edge>)
    requires EdgeIn(h, e) && e.IsSequence() && EmitEdge(h, e, pm, anc).Ok? && EmitSlots(h, e.elems, pm, anc).Ok?
    requires var fs := EmitEdge(h, e, pm, anc).value.fields;
             At(fs, "@T") == Ok(Str(Tag(e.Kind()))) && At(fs, "@d") == Ok(Arr(EmitSlots(h, e.elems, pm, anc).value))
    requires DecodeSlots(sch, EmitSlots(h, e.elems, pm, anc).value, st) == Ok(ds)
    ensures DecodeEdge(sch, EmitEdge(h, e, pm, anc).value, e.Kind(), st) == Ok(d)
    ensures d.st == ds.st && d.val == (if e.AnyEdge? then AnyEdge(ds.val) else ManyEdge(ds.val))
  {
    var fs := EmitEdge(h, e, pm, anc).value.fields;
    assert DecodeSequence(sch, fs, Tag(e.Kind()), st) == Ok(ds);
    d := Decoded(if e.AnyEdge? then AnyEdge(ds.val) else ManyEdge(ds.val), ds.st);
  }

  /** A link decodes to an empty link and leaves the state alone. */
  lemma LinkStep(sch: Schema, h: Heap, e: Edge, a: PointerMap, b: PointerMap, pm: PointerMap, anc: set<NodeId>, st: DState)
    returns (d: Decoded<Edge>)
    requires EdgeIn(h, e) && e.IsLink() && EmitEdge(h, e, pm, anc).Ok? && ReachEdge(h, e, a) == Ok(b)
    ensures DecodeEdge(sch, EmitEdge(h, e, pm, anc).value, e.Kind(), st) == Ok(d)
    ensures Sim(h, pm, New(a, b), st, d.st) && d.val == SkelEdge(pm, d.st.ids.nodes, e)
  {
    var fs := [Field("@T", Str(Tag(e.Kind()))), Field("@l", Int(Num(pm, e.link)))];
    assert EmitEdge(h, e, pm, anc).value == Rec(fs);
    AtDistinct(fs, 0);
    SimRefl(h, pm, a, b, st);
    d := Decoded(if e.OptLinkEdge? then OptLinkEdge(None) else LinkEdge(None), st);
  }

  /** The first field of a node and the rest, as the reachability pass and the writer see them. */
  lemma EdgesCons(h: Heap, es: seq<Edge>, kinds: seq<EdgeKind>, a: PointerMap, b: PointerMap, pm: PointerMap, anc: set<NodeId>)
    returns (a1: PointerMap)
    requires es != [] && EdgesIn(h, es) && KindsMatch(kinds, es)
    requires ReachEdges(h, es, a) == Ok(b) && EmitEdges(h, es, pm, anc).Ok?
    ensures EdgeIn(h, es[0]) && EdgesIn(h, es[1..]) && KindsMatch(kinds[1..], es[1..])
    ensures EdgeRank(es[0]) < EdgesRank(es) && EdgesRank(es[1..]) < EdgesRank(es)
    ensures ReachEdge(h, es[0], a) == Ok(a1) && ReachEdges(h, es[1..], a1) == Ok(b)
    ensures a.seqno.Keys <= a1.seqno.Keys <= b.seqno.Keys
    ensures var k, k1 := h.nodes.Keys - a.seqno.Keys, h.nodes.Keys - a1.seqno.Keys; k1 == k || k1 < k
    ensures EmitEdge(h, es[0], pm, anc).Ok? && EmitEdges(h, es[1..], pm, anc).Ok?
    ensures EmitEdges(h, es, pm, anc).value == [EmitEdge(h, es[0], pm, anc).value] + EmitEdges(h, es[1..], pm, anc).value
  {
    a1 := ReachEdgesCons(h, es, a, b);
  }

  /** Decoding one more field of a node. */
  lemma EdgesStep(sch: Schema, h: Heap, es: seq<Edge>, kinds: seq<EdgeKind>, a: PointerMap, a1: PointerMap, b: PointerMap,
                  pm: PointerMap, anc: set<NodeId>, st: DState, d0: Decoded<Edge>, d1: Decoded<seq<Edge>>)
    returns (d: Decoded<seq<Edge>>)
    requires es != [] && EdgesIn(h, es) && KindsMatch(kinds, es)
    requires ReachEdge(h, es[0], a) == Ok(a1) && ReachEdges(h, es[1..], a1) == Ok(b)
    requires EmitEdges(h, es, pm, anc).Ok?
    requires EmitEdge(h, es[0], pm, anc).Ok? && EmitEdges(h, es[1..], pm, anc).Ok?
    requires DecodeEdge(sch, EmitEdge(h, es[0], pm, anc).value, es[0].Kind(), st) == Ok(d0)
    requires Sim(h, pm, New(a, a1), st, d0.st) && d0.val == SkelEdge(pm, d0.st.ids.nodes, es[0])
    requires DecodeEdges(sch, EmitEdges(h, es[1..], pm, anc).value, kinds[1..], d0.st) == Ok(d1)
    requires Sim(h, pm, New(a1, b), d0.st, d1.st) && d1.val == SkelEdges(pm, d1.st.ids.nodes, es[1..])
    ensures DecodeEdges(sch, EmitEdges(h, es, pm, anc).value, kinds, st) == Ok(d)
    ensures Sim(h, pm, New(a, b), st, d.st) && d.val == SkelEdges(pm, d.st.ids.nodes, es)
    requires EmitEdges(h, es, pm, anc).value == [EmitEdge(h, es[0], pm, anc).value] + EmitEdges(h, es[1..], pm, anc).value
  {
    var evs := EmitEdges(h, es, pm, anc).value;
    assert evs[0] == EmitEdge(h, es[0], pm, anc).value && evs[1..] == EmitEdges(h, es[1..], pm, anc).value;
    d := Decoded([d0.val] + d1.val, d1.st);
    SimSeq(h, pm, a, a1, b, st, d0.st, d1.st);
    SkelEdgeFrame(pm, d0.st.ids.nodes, d1.st.ids.nodes, New(a, a1), es[0]);
  }

  lemma {:induction false} DecodeEdgesSim(sch: Schema, h: Heap, es: seq<Edge>, kinds: seq<EdgeKind>,
                                          a: PointerMap, b: PointerMap, pm: PointerMap, anc: set<NodeId>, st: DState)
    returns (d: Decoded<seq<Edge>>)
    requires Conforms(sch, h) && Valid(pm) && KindsMatch(kinds, es)
    requires EdgesIn(h, es) && ReachEdges(h, es, a) == Ok(b)
    requires anc <= a.seqno.Keys && b.seqno.Keys <= pm.seqno.Keys
    requires EmitEdges(h, es, pm, anc).Ok?
    ensures DecodeEdges(sch, EmitEdges(h, es, pm, anc).value, kinds, st) == Ok(d)
    ensures Sim(h, pm, New(a, b), st, d.st) && d.val == SkelEdges(pm, d.st.ids.nodes, es)
    decreases h.nodes.Keys - a.seqno.Keys, EdgesRank(es)
  {
    if es == [] {
      SimRefl(h, pm, a, b, st);
      d := Decoded([], st);
    } else {
      var a1 := EdgesCons(h, es, kinds, a, b, pm, anc);
      var d0 := DecodeEdgeSim(sch, h, es[0], a, a1, pm, anc, st);
      var d1 := DecodeEdgesSim(sch, h, es[1..], kinds[1..], a1, b, pm, anc, d0.st);
      d := EdgesStep(sch, h, es, kinds, a, a1, b, pm, anc, st, d0, d1);
    }
  }

  // ---------------------------------------------------------------------
  // Phase two: restoring the links

  /** A link field of `n`'s counterpart is restored to observe the counterpart of its target. */
  lemma LinkRestored(h: Heap, pm: PointerMap, st: DState, h2: Heap, n: NodeId, j: nat, p: Pending)
    requires StateOk(st) && RestoreLinks(st.heap, st.ids.nodes, st.ids.links) == Ok(h2)
    requires n in h.nodes && j < |h.nodes[n].edges| && h.nodes[n].edges[j].IsLink()
    requires Live(h, h.nodes[n].edges[j].link) && h.nodes[n].edges[j].link.value in pm.seqno
    requires Mapped(pm, st.ids.nodes, n, st.heap.nodes.Keys)
    requires st.heap.nodes[Re(pm, st.ids.nodes, Some(n)).value] == SkelNode(pm, st.ids.nodes, h.nodes[n])
    requires p in st.ids.links && Some(p.owner) == Re(pm, st.ids.nodes, Some(n)) && p.index == j
    requires p.id == Num(pm, h.nodes[n].edges[j].link)
    ensures var k := Re(pm, st.ids.nodes, Some(n)).value;
            j < |h2.nodes[k].edges| && h2.nodes[k].edges[j] == RenameEdge(pm, st.ids.nodes, h.nodes[n].edges[j])
  {
    SkelEdgesAt(pm, st.ids.nodes, h.nodes[n].edges, j);
    RestorePatchesLink(st.heap, st.ids.nodes, st.ids.links, p);
  }

  /** An owning field of `n`'s counterpart is left as decoding built it. */
  lemma OwningFieldRestored(h: Heap, pm: PointerMap, st: DState, h2: Heap, n: NodeId, j: nat)
    requires StateOk(st) && RestoreLinks(st.heap, st.ids.nodes, st.ids.links) == Ok(h2)
    requires n in h.nodes && j < |h.nodes[n].edges| && !h.nodes[n].edges[j].IsLink()
    requires Mapped(pm, st.ids.nodes, n, st.heap.nodes.Keys)
    requires st.heap.nodes[Re(pm, st.ids.nodes, Some(n)).value] == SkelNode(pm, st.ids.nodes, h.nodes[n])
    ensures var k := Re(pm, st.ids.nodes, Some(n)).value;
            j < |h2.nodes[k].edges| && h2.nodes[k].edges[j] == RenameEdge(pm, st.ids.nodes, h.nodes[n].edges[j])
  {
    var m, links := st.ids.nodes, st.ids.links;
    var k := Re(pm, m, Some(n)).value;
    SkelEdgesAt(pm, m, h.nodes[n].edges, j);
    forall q | q in links ensures q.owner != k || q.index != j {
    }
    RestoreKeepsField(st.heap, m, links, k, j);
  }

  /** The counterpart of `n`, after the links are restored, is `n` renamed. */
  lemma NodeRestored(h: Heap, pm: PointerMap, d: set<NodeId>, st: DState, h2: Heap, n: NodeId)
    requires StateOk(st) && RestoreLinks(st.heap, st.ids.nodes, st.ids.links) == Ok(h2)
    requires AllEmittable(h, d, pm) && n in d
    requires Mapped(pm, st.ids.nodes, n, st.heap.nodes.Keys)
    requires st.heap.nodes[Re(pm, st.ids.nodes, Some(n)).value] == SkelNode(pm, st.ids.nodes, h.nodes[n])
    requires Covered(h, pm, d, st)
    ensures h2.nodes[Re(pm, st.ids.nodes, Some(n)).value] == RenameNode(pm, st.ids.nodes, h.nodes[n])
  {
    var m := st.ids.nodes;
    var k := Re(pm, m, Some(n)).value;
    var es := h.nodes[n].edges;
    RestoreKeepsShape(st.heap, m, st.ids.links, k);
    forall j | 0 <= j < |es| ensures h2.nodes[k].edges[j] == RenameEdges(pm, m, es)[j] {
      if es[j].IsLink() {
        var p :| p in st.ids.links && Some(p.owner) == Re(pm, m, Some(n)) && p.index == j && p.id == Num(pm, es[j].link);
        assert EdgeEmittable(h, es[j], pm);
        LinkRestored(h, pm, st, h2, n, j, p);
      } else {
        OwningFieldRestored(h, pm, st, h2, n, j);
      }
      RenameEdgesAt(pm, m, es, j);
    }
  }

  /** Every node of `d` is restored to its renaming. */
  lemma AllRestored(h: Heap, pm: PointerMap, st0: DState, st: DState, h2: Heap)
    requires StateOk(st) && RestoreLinks(st.heap, st.ids.nodes, st.ids.links) == Ok(h2)
    requires AllEmittable(h, pm.seqno.Keys, pm) && Built(h, pm, pm.seqno.Keys, st0.heap, st)
    requires Distinct(pm, st.ids.nodes, pm.seqno.Keys) && Covered(h, pm, pm.seqno.Keys, st)
    requires forall n :: n in pm.seqno ==> n in h.nodes && OwnedTargets(h.nodes[n]) <= pm.seqno.Keys
    ensures Corr(h, pm, st.ids.nodes, pm.seqno.Keys, h2)
  {
    var d := pm.seqno.Keys;
    forall n | n in d ensures h2.nodes[Re(pm, st.ids.nodes, Some(n)).value] == RenameNode(pm, st.ids.nodes, h.nodes[n]) {
      NodeRestored(h, pm, d, st, h2, n);
    }
  }

  /** Every queued number was given to a node that was rebuilt, so `restore_links` succeeds. */
  lemma RestoreSucceeds(h: Heap, pm: PointerMap, st: DState)
    requires StateOk(st) && Sim(h, pm, pm.seqno.Keys, EmptyState, st)
    ensures RestoreLinks(st.heap, st.ids.nodes, st.ids.links).Ok?
  {
    forall p | p in st.ids.links ensures p.id in st.ids.nodes {
      var t :| t in pm.seqno && pm.seqno[t] == p.id;
      assert Mapped(pm, st.ids.nodes, t, st.heap.nodes.Keys);
    }
  }

  /** Phase one of reading back what `serialize` wrote decodes every reachable node. */
  lemma BuildSim(sch: Schema, h: Heap, root: Option<NodeId>, v: Value) returns (d: Decoded<Option<NodeId>>)
    requires SlotIn(h, root) && Conforms(sch, h) && Serialize(h, root) == Ok(v)
    ensures ReachEdge(h, MaybeEdge(root), EmptyMap).Ok?
    ensures var pm := ReachEdge(h, MaybeEdge(root), EmptyMap).value;
            && Build(sch, v) == Ok(d) && Valid(pm)
            && Sim(h, pm, pm.seqno.Keys, EmptyState, d.st) && d.val == Re(pm, d.st.ids.nodes, root)
            && AllEmittable(h, pm.seqno.Keys, pm)
            && forall n :: n in pm.seqno ==> n in h.nodes && OwnedTargets(h.nodes[n]) <= pm.seqno.Keys
  {
    var pm := ReachEdge(h, MaybeEdge(root), EmptyMap).value;
    EmptyMapValid();
    assert ReachSlot(h, root, EmptyMap) == Ok(pm);
    assert New(EmptyMap, pm) == pm.seqno.Keys;
    var fs := EmitSlot(h, root, Tag(MaybeKind), pm, {}).value;
    assert v == Rec(fs);
    d := DecodeSlotSim(sch, h, root, Tag(MaybeKind), EmptyMap, pm, pm, {}, EmptyState);
    EmitEdgeMatches(h, MaybeEdge(root), EmptyMap, pm, pm, {});
  }

  /**
   The round trip. If `serialize` wrote `v` for a tree whose node types
   conform to the schema, then `deserialize` of `v` succeeds; its root is
   the counterpart of the original root, and every node reachable from
   the original root has a distinct counterpart holding the same payload,
   owning the counterparts of its children and observing the counterparts
   of the nodes its links observed.
   */
  lemma RoundTrip(sch: Schema, h: Heap, root: Option<NodeId>, v: Value)
    requires SlotIn(h, root) && Conforms(sch, h) && Serialize(h, root) == Ok(v)
    ensures ReachEdge(h, MaybeEdge(root), EmptyMap).Ok? && Build(sch, v).Ok? && Deserialize(sch, v).Ok?
    ensures var pm := ReachEdge(h, MaybeEdge(root), EmptyMap).value;
            var m := Build(sch, v).value.st.ids.nodes;
            && Deserialize(sch, v).value.1 == Re(pm, m, root)
            && Corr(h, pm, m, pm.seqno.Keys, Deserialize(sch, v).value.0)
  {
    var pm := ReachEdge(h, MaybeEdge(root), EmptyMap).value;
    var d := BuildSim(sch, h, root, v);
    RestoreSucceeds(h, pm, d.st);
    var h2 := RestoreLinks(d.st.heap, d.st.ids.nodes, d.st.ids.links).value;
    AllRestored(h, pm, EmptyState, d.st, h2);
    WellFormedTransport(h, h2, pm, d.st.ids.nodes, root);
  }

  /** `deserialize` reads back every well-formed, schema-conforming tree whose reachable links are set. */
  lemma RoundTripWellFormed(sch: Schema, h: Heap, root: Option<NodeId>)
    requires SlotIn(h, root) && Conforms(sch, h)
    requires IsWellFormed(h, MaybeEdge(root)) && ReachableLinksLive(h, root)
    ensures Serialize(h, root).Ok? && Deserialize(sch, Serialize(h, root).value).Ok?
  {
    SerializeIff(h, root);
    RoundTrip(sch, h, root, Serialize(h, root).value);
  }
}
