/**
 Ownership in a tree, defined without reference to the reachability pass.

 The nodes reachable from a set of roots are those that every
 ownership-closed set containing the roots contains (the least such set).
 A structure is owned once when no node occupies two owning slots among
 the root slots and the owning slots of the reachable nodes; this covers
 two elements of one vector, two fields of one node, two different nodes
 (cousins), and an owning cycle, which always leads back to a node that
 already has an owner.

 The main result, `ReachIffUniqueOwners`, is that `find_reachable` succeeds
 exactly on structures owned once, and then registers exactly the
 reachable nodes.
 */
module Ownership {
  import opened Results
  import opened Graph
  import opened PointerMaps
  import opened Validation

  // ---------------------------------------------------------------------
  // Owning slots

  /** The nodes held by an edge's owning slots, in slot order; weak edges hold none. */
  function EdgeSlots(e: Edge): seq<NodeId> {
    if e.IsSingle() then Held(e.target)
    else if e.IsSequence() then Filled(e.elems)
    else []
  }

  /** The nodes held by the owning slots of a node's fields, in field order. */
  function EdgesSlots(es: seq<Edge>): seq<NodeId> {
    if es == [] then [] else EdgeSlots(es[0]) + EdgesSlots(es[1..])
  }

  function Elems(t: seq<NodeId>): set<NodeId> {
    set m | m in t
  }

  /** No node appears twice. */
  predicate NoRepeats(t: seq<NodeId>) {
    forall i, j :: 0 <= i < j < |t| ==> t[i] != t[j]
  }

  lemma ElemsConcat(t1: seq<NodeId>, t2: seq<NodeId>)
    ensures Elems(t1 + t2) == Elems(t1) + Elems(t2)
  {
    assert forall m :: m in t1 + t2 <==> m in t1 || m in t2;
  }

  lemma HeldOwned(x: Option<NodeId>)
    ensures Elems(Held(x)) == SlotTargets(x)
  {
    if x.Some? {
      assert x.value in Held(x);
    }
  }

  lemma FilledElems(xs: seq<Option<NodeId>>)
    ensures Elems(Filled(xs)) == SlotsTargets(xs)
  {
    FilledOwned(xs);
  }

  lemma EdgeSlotsOwned(e: Edge)
    ensures Elems(EdgeSlots(e)) == EdgeTargets(e)
  {
    if e.IsSingle() {
      HeldOwned(e.target);
    } else if e.IsSequence() {
      FilledElems(e.elems);
    }
  }

  lemma {:induction false} EdgesSlotsOwned(es: seq<Edge>)
    ensures Elems(EdgesSlots(es)) == EdgesTargets(es)
  {
    if es != [] {
      EdgeSlotsOwned(es[0]);
      EdgesSlotsOwned(es[1..]);
      ElemsConcat(EdgeSlots(es[0]), EdgesSlots(es[1..]));
    }
  }

  /** A list without repeats splits into two lists without repeats that share no node, and back. */
  lemma NoRepeatsConcat(t1: seq<NodeId>, t2: seq<NodeId>)
    ensures NoRepeats(t1 + t2) <==> NoRepeats(t1) && NoRepeats(t2) && Elems(t1) !! Elems(t2)
  {
    var t := t1 + t2;
    if NoRepeats(t) {
      forall i, j | 0 <= i < j < |t2| ensures t2[i] != t2[j] {
        assert t[|t1| + i] == t2[i] && t[|t1| + j] == t2[j];
      }
      forall i, j | 0 <= i < |t1| && 0 <= j < |t2| ensures t1[i] != t2[j] {
        assert t[i] == t1[i] && t[|t1| + j] == t2[j];
      }
    }
    if NoRepeats(t) {
      forall i, j | 0 <= i < j < |t1| ensures t1[i] != t1[j] {
        assert t[i] == t1[i] && t[j] == t1[j];
      }
    }
    if NoRepeats(t1) && NoRepeats(t2) && Elems(t1) !! Elems(t2) {
      forall i, j | 0 <= i < j < |t| ensures t[i] != t[j] {
        if j < |t1| {
        } else if i >= |t1| {
          assert t[i] == t2[i - |t1|] && t[j] == t2[j - |t1|];
        } else {
          assert t[i] in Elems(t1) && t[j] == t2[j - |t1|] && t[j] in Elems(t2);
        }
      }
    }
  }

  // ---------------------------------------------------------------------
  // Reachability through owning edges

  /** Every node of `s` is live and owns only nodes of `s`. */
  predicate OwnClosed(h: Heap, s: set<NodeId>) {
    forall n :: n in s ==> n in h.nodes && OwnedTargets(h.nodes[n]) <= s
  }

  /** `n` lies in every ownership-closed set containing the roots `t`. */
  ghost predicate InEveryClosed(h: Heap, t: set<NodeId>, n: NodeId) {
    forall s :: OwnClosed(h, s) && t <= s ==> n in s
  }

  /**
   The nodes reachable from the roots `t` through owning edges: the least
   ownership-closed set containing `t`.
   */
  ghost function OwnReach(h: Heap, t: set<NodeId>): set<NodeId> {
    set n | n in h.nodes.Keys && InEveryClosed(h, t, n)
  }

  /** The reachable nodes lie inside every closed set containing the roots. */
  lemma ReachLeast(h: Heap, t: set<NodeId>, s: set<NodeId>)
    requires OwnClosed(h, s) && t <= s
    ensures OwnReach(h, t) <= s
  {
  }

  /** The reachable nodes contain the roots and are closed themselves. */
  lemma ReachClosed(h: Heap, t: set<NodeId>)
    requires t <= h.nodes.Keys
    ensures t <= OwnReach(h, t) && OwnClosed(h, OwnReach(h, t))
  {
    var r := OwnReach(h, t);
    forall n | n in r ensures OwnedTargets(h.nodes[n]) <= r {
      forall m | m in OwnedTargets(h.nodes[n]) ensures m in r {
        assert m in h.nodes.Keys;
        forall s | OwnClosed(h, s) && t <= s ensures m in s {
          assert InEveryClosed(h, t, n);
          assert n in s;
        }
      }
    }
  }

  /** Reachability is monotone in the roots. */
  lemma ReachMono(h: Heap, t1: set<NodeId>, t2: set<NodeId>)
    requires t2 <= h.nodes.Keys && t1 <= OwnReach(h, t2)
    ensures OwnReach(h, t1) <= OwnReach(h, t2)
  {
    ReachClosed(h, t2);
    ReachLeast(h, t1, OwnReach(h, t2));
  }

  lemma ReachEmpty(h: Heap)
    ensures OwnReach(h, {}) == {}
  {
    ReachLeast(h, {}, {});
  }

  /** A live node reaches itself and whatever its children reach. */
  lemma ReachSingle(h: Heap, c: NodeId)
    requires c in h.nodes
    ensures OwnReach(h, {c}) == {c} + OwnReach(h, OwnedTargets(h.nodes[c]))
  {
    var ot := OwnedTargets(h.nodes[c]);
    var s := {c} + OwnReach(h, ot);
    ReachClosed(h, {c});
    ReachClosed(h, ot);
    ReachMono(h, ot, {c});
    ReachLeast(h, {c}, s);
  }

  /** The nodes reachable from two sets of roots are those reachable from either. */
  lemma ReachUnion(h: Heap, t1: set<NodeId>, t2: set<NodeId>)
    requires t1 <= h.nodes.Keys && t2 <= h.nodes.Keys
    ensures OwnReach(h, t1 + t2) == OwnReach(h, t1) + OwnReach(h, t2)
  {
    ReachClosed(h, t1);
    ReachClosed(h, t2);
    ReachLeast(h, t1 + t2, OwnReach(h, t1) + OwnReach(h, t2));
    ReachClosed(h, t1 + t2);
    ReachMono(h, t1, t1 + t2);
    ReachMono(h, t2, t1 + t2);
  }

  /** Every reachable node is a root or the child of a reachable node. */
  lemma ReachSupported(h: Heap, t: set<NodeId>, m: NodeId) returns (n: NodeId)
    requires t <= h.nodes.Keys && m in OwnReach(h, t) && m !in t
    ensures n in OwnReach(h, t) && m in OwnedTargets(h.nodes[n])
  {
    var r := OwnReach(h, t);
    ReachClosed(h, t);
    var s := t + set k, j | k in r && j in OwnedTargets(h.nodes[k]) :: j;
    forall k | k in s ensures k in h.nodes && OwnedTargets(h.nodes[k]) <= s {
    }
    ReachLeast(h, t, s);
    n :| n in r && m in OwnedTargets(h.nodes[n]);
  }

  // ---------------------------------------------------------------------
  // Owned once

  /** No node of `r` holds a child in two of its owning slots. */
  predicate SlotsOnce(h: Heap, r: set<NodeId>) {
    forall n :: n in r && n in h.nodes ==> NoRepeats(EdgesSlots(h.nodes[n].edges))
  }

  /** No node of `r` owns one of the roots `t`. */
  predicate RootsUnowned(h: Heap, t: set<NodeId>, r: set<NodeId>) {
    forall n :: n in r && n in h.nodes ==> t !! OwnedTargets(h.nodes[n])
  }

  /** No node of `a` and different node of `b` own a common child. */
  predicate OwnersApart(h: Heap, a: set<NodeId>, b: set<NodeId>) {
    forall n, n' :: n in a && n' in b && n != n' && n in h.nodes && n' in h.nodes ==>
      OwnedTargets(h.nodes[n]) !! OwnedTargets(h.nodes[n'])
  }

  /**
   No node occupies two owning slots among the root slots `top` and the
   owning slots of the nodes reachable from them: the roots are distinct,
   no reachable node holds a child twice, no reachable node owns a root,
   and no two reachable nodes own a common child.
   */
  ghost predicate UniqueOwners(h: Heap, top: seq<NodeId>) {
    var r := OwnReach(h, Elems(top));
    NoRepeats(top) && SlotsOnce(h, r) && RootsUnowned(h, Elems(top), r) && OwnersApart(h, r, r)
  }

  lemma UniqueEmpty(h: Heap)
    ensures UniqueOwners(h, [])
  {
    assert Elems([]) == {};
    ReachEmpty(h);
  }

  lemma OnceUnion(h: Heap, t1: set<NodeId>, t2: set<NodeId>, a: set<NodeId>, b: set<NodeId>)
    ensures SlotsOnce(h, a + b) <==> SlotsOnce(h, a) && SlotsOnce(h, b)
    ensures RootsUnowned(h, t1 + t2, a + b) <==>
              RootsUnowned(h, t1, a) && RootsUnowned(h, t1, b) && RootsUnowned(h, t2, a) && RootsUnowned(h, t2, b)
    ensures OwnersApart(h, a + b, a + b) <==>
              OwnersApart(h, a, a) && OwnersApart(h, b, b) && OwnersApart(h, a, b)
  {
  }

  /** Nodes of a closed set own nothing outside it. */
  lemma ClosedApart(h: Heap, t: set<NodeId>, a: set<NodeId>, b: set<NodeId>)
    requires OwnClosed(h, a) && OwnClosed(h, b) && a !! b && t <= a
    ensures RootsUnowned(h, t, b) && OwnersApart(h, a, b)
  {
    forall n, n' | n in a && n' in b ensures OwnedTargets(h.nodes[n]) !! OwnedTargets(h.nodes[n']) {
    }
  }

  /** A root reached from other roots is owned by a reachable node. */
  lemma RootNotReached(h: Heap, t1: set<NodeId>, t2: set<NodeId>, m: NodeId)
    requires t1 <= h.nodes.Keys && t2 <= h.nodes.Keys && t1 !! t2 && m in t1
    requires RootsUnowned(h, t1, OwnReach(h, t2))
    ensures m !in OwnReach(h, t2)
  {
    if m in OwnReach(h, t2) {
      var n := ReachSupported(h, t2, m);
    }
  }

  /** A child of a node reached from `t1` only is not reached from `t2`. */
  lemma ChildNotReached(h: Heap, t1: set<NodeId>, t2: set<NodeId>, n: NodeId, m: NodeId)
    requires t1 <= h.nodes.Keys && t2 <= h.nodes.Keys
    requires n in h.nodes && n in OwnReach(h, t1) && n !in OwnReach(h, t2) && m in OwnedTargets(h.nodes[n])
    requires RootsUnowned(h, t2, OwnReach(h, t1))
    requires OwnersApart(h, OwnReach(h, t1), OwnReach(h, t2))
    ensures m !in OwnReach(h, t2)
  {
    if m in OwnReach(h, t2) && m !in t2 {
      var n2 := ReachSupported(h, t2, m);
    }
  }

  /**
   When the roots are distinct and no reachable node owns a root or shares
   a child with another, what `t1` reaches and what `t2` reaches are
   disjoint: the nodes reached from `t1` but not from `t2` form a closed
   set containing `t1`.
   */
  lemma ReachDisjoint(h: Heap, t1: set<NodeId>, t2: set<NodeId>)
    requires t1 <= h.nodes.Keys && t2 <= h.nodes.Keys && t1 !! t2
    requires RootsUnowned(h, t1 + t2, OwnReach(h, t1) + OwnReach(h, t2))
    requires OwnersApart(h, OwnReach(h, t1) + OwnReach(h, t2), OwnReach(h, t1) + OwnReach(h, t2))
    ensures OwnReach(h, t1) !! OwnReach(h, t2)
  {
    var r1, r2 := OwnReach(h, t1), OwnReach(h, t2);
    OnceUnion(h, t1, t2, r1, r2);
    ReachClosed(h, t1);
    var d := r1 - r2;
    forall m | m in t1 ensures m in d {
      RootNotReached(h, t1, t2, m);
    }
    forall n | n in d ensures n in h.nodes && OwnedTargets(h.nodes[n]) <= d {
      forall m | m in OwnedTargets(h.nodes[n]) ensures m !in r2 {
        ChildNotReached(h, t1, t2, n, m);
      }
    }
    ReachLeast(h, t1, d);
  }

  /** Owned once for `t1 + t2` is owned once for each part, with disjoint reach. */
  lemma UniqueSplit(h: Heap, t1: seq<NodeId>, t2: seq<NodeId>)
    requires Elems(t1) <= h.nodes.Keys && Elems(t2) <= h.nodes.Keys
    requires UniqueOwners(h, t1 + t2)
    ensures UniqueOwners(h, t1) && UniqueOwners(h, t2)
    ensures OwnReach(h, Elems(t1)) !! OwnReach(h, Elems(t2))
  {
    var e1, e2 := Elems(t1), Elems(t2);
    ElemsConcat(t1, t2);
    ReachUnion(h, e1, e2);
    NoRepeatsConcat(t1, t2);
    OnceUnion(h, e1, e2, OwnReach(h, e1), OwnReach(h, e2));
    ReachDisjoint(h, e1, e2);
  }

  /** Two parts each owned once, with disjoint reach, are owned once together. */
  lemma UniqueJoin(h: Heap, t1: seq<NodeId>, t2: seq<NodeId>)
    requires Elems(t1) <= h.nodes.Keys && Elems(t2) <= h.nodes.Keys
    requires UniqueOwners(h, t1) && UniqueOwners(h, t2)
    requires OwnReach(h, Elems(t1)) !! OwnReach(h, Elems(t2))
    ensures UniqueOwners(h, t1 + t2)
  {
    var e1, e2 := Elems(t1), Elems(t2);
    var r1, r2 := OwnReach(h, e1), OwnReach(h, e2);
    ElemsConcat(t1, t2);
    ReachUnion(h, e1, e2);
    ReachClosed(h, e1);
    ReachClosed(h, e2);
    NoRepeatsConcat(t1, t2);
    ClosedApart(h, e1, r1, r2);
    ClosedApart(h, e2, r2, r1);
    OnceUnion(h, e1, e2, r1, r2);
  }

  /** A node that reaches itself through its children is owned by a node it reaches: an owning cycle. */
  lemma SelfReachOwned(h: Heap, c: NodeId)
    requires c in h.nodes && c in OwnReach(h, OwnedTargets(h.nodes[c]))
    ensures !RootsUnowned(h, {c}, {c} + OwnReach(h, OwnedTargets(h.nodes[c])))
  {
    var ot := OwnedTargets(h.nodes[c]);
    if c !in ot {
      var n := ReachSupported(h, ot, c);
      assert c in OwnedTargets(h.nodes[n]);
    } else {
      assert c in OwnedTargets(h.nodes[c]);
    }
  }

  /**
   A single root slot holding `c` is owned once exactly when the slots of
   `c`'s fields are owned once and `c` does not reach itself.
   */
  lemma UniqueSingle(h: Heap, c: NodeId)
    requires c in h.nodes
    ensures UniqueOwners(h, [c]) <==>
              UniqueOwners(h, EdgesSlots(h.nodes[c].edges)) && c !in OwnReach(h, OwnedTargets(h.nodes[c]))
  {
    var ot := OwnedTargets(h.nodes[c]);
    var r' := OwnReach(h, ot);
    var top' := EdgesSlots(h.nodes[c].edges);
    assert Elems([c]) == {c};
    EdgesSlotsOwned(h.nodes[c].edges);
    ReachSingle(h, c);
    ReachClosed(h, ot);
    if c in r' {
      SelfReachOwned(h, c);
    } else {
      OnceUnion(h, {c}, {}, {c}, r');
      assert SlotsOnce(h, {c}) <==> NoRepeats(top');
      assert RootsUnowned(h, {c}, {c} + r');
      assert OwnersApart(h, {c}, r') <==> RootsUnowned(h, ot, r');
    }
  }

  // ---------------------------------------------------------------------
  // The reachability pass decides ownership

  /**
   From registry `a`, the pass over a slot succeeds exactly when the slot
   is owned once and nothing it reaches is registered yet; it then
   registers exactly the reachable nodes.
   */
  lemma {:induction false} ReachSlotOwnership(h: Heap, x: Option<NodeId>, a: PointerMap)
    requires SlotIn(h, x)
    ensures ReachSlot(h, x, a).Ok? <==> UniqueOwners(h, Held(x)) && OwnReach(h, SlotTargets(x)) !! a.seqno.Keys
    ensures ReachSlot(h, x, a).Ok? ==> New(a, ReachSlot(h, x, a).value) == OwnReach(h, SlotTargets(x))
    decreases h.nodes.Keys - a.seqno.Keys, 0
  {
    HeldOwned(x);
    match x
    case None =>
      UniqueEmpty(h);
      ReachEmpty(h);
    case Some(c) =>
      ReachClosed(h, {c});
      if c !in a.seqno {
        var a1 := Add(a, c).value;
        var es := h.nodes[c].edges;
        assert h.nodes.Keys - a1.seqno.Keys < h.nodes.Keys - a.seqno.Keys;
        ReachEdgesOwnership(h, es, a1);
        EdgesSlotsOwned(es);
        UniqueSingle(h, c);
        ReachSingle(h, c);
      }
  }

  lemma {:induction false} ReachSlotsOwnership(h: Heap, xs: seq<Option<NodeId>>, a: PointerMap)
    requires SlotsTargets(xs) <= h.nodes.Keys
    ensures ReachSlots(h, xs, a).Ok? <==> UniqueOwners(h, Filled(xs)) && OwnReach(h, SlotsTargets(xs)) !! a.seqno.Keys
    ensures ReachSlots(h, xs, a).Ok? ==> New(a, ReachSlots(h, xs, a).value) == OwnReach(h, SlotsTargets(xs))
    decreases h.nodes.Keys - a.seqno.Keys, |xs| + 1
  {
    if xs == [] {
      UniqueEmpty(h);
      ReachEmpty(h);
    } else {
      SlotsTargetsMember(xs, 0);
      var t1, t2 := Held(xs[0]), Filled(xs[1..]);
      HeldOwned(xs[0]);
      FilledElems(xs[1..]);
      ReachUnion(h, SlotTargets(xs[0]), SlotsTargets(xs[1..]));
      ReachSlotOwnership(h, xs[0], a);
      if UniqueOwners(h, t1 + t2) {
        UniqueSplit(h, t1, t2);
      }
      var r := ReachSlot(h, xs[0], a);
      if r.Ok? {
        var a1 := r.value;
        ReachSlotsOwnership(h, xs[1..], a1);
        if UniqueOwners(h, t2) && OwnReach(h, SlotsTargets(xs[1..])) !! a1.seqno.Keys {
          UniqueJoin(h, t1, t2);
        }
      }
    }
  }

  lemma {:induction false} ReachEdgeOwnership(h: Heap, e: Edge, a: PointerMap)
    requires EdgeIn(h, e)
    ensures ReachEdge(h, e, a).Ok? <==> UniqueOwners(h, EdgeSlots(e)) && OwnReach(h, EdgeTargets(e)) !! a.seqno.Keys
    ensures ReachEdge(h, e, a).Ok? ==> New(a, ReachEdge(h, e, a).value) == OwnReach(h, EdgeTargets(e))
    decreases h.nodes.Keys - a.seqno.Keys, EdgeRank(e)
  {
    if e.IsSingle() {
      ReachSlotOwnership(h, e.target, a);
    } else if e.IsSequence() {
      ReachSlotsOwnership(h, e.elems, a);
    } else {
      UniqueEmpty(h);
      ReachEmpty(h);
    }
  }

  lemma {:induction false} ReachEdgesOwnership(h: Heap, es: seq<Edge>, a: PointerMap)
    requires EdgesIn(h, es)
    ensures ReachEdges(h, es, a).Ok? <==> UniqueOwners(h, EdgesSlots(es)) && OwnReach(h, EdgesTargets(es)) !! a.seqno.Keys
    ensures ReachEdges(h, es, a).Ok? ==> New(a, ReachEdges(h, es, a).value) == OwnReach(h, EdgesTargets(es))
    decreases h.nodes.Keys - a.seqno.Keys, EdgesRank(es)
  {
    if es == [] {
      UniqueEmpty(h);
      ReachEmpty(h);
    } else {
      EdgesTargetsMember(es, 0);
      var t1, t2 := EdgeSlots(es[0]), EdgesSlots(es[1..]);
      EdgeSlotsOwned(es[0]);
      EdgesSlotsOwned(es[1..]);
      ReachUnion(h, EdgeTargets(es[0]), EdgesTargets(es[1..]));
      assert EdgeRank(es[0]) < EdgesRank(es) && EdgesRank(es[1..]) < EdgesRank(es);
      ReachEdgeOwnership(h, es[0], a);
      if UniqueOwners(h, t1 + t2) {
        UniqueSplit(h, t1, t2);
      }
      var r := ReachEdge(h, es[0], a);
      if r.Ok? {
        var a1 := r.value;
        ReachEdgesOwnership(h, es[1..], a1);
        if UniqueOwners(h, t2) && OwnReach(h, EdgesTargets(es[1..])) !! a1.seqno.Keys {
          UniqueJoin(h, t1, t2);
        }
      }
    }
  }

  /**
   `find_reachable` from an empty registry succeeds exactly when the edge's
   structure is owned once, and then registers exactly the nodes reachable
   through owning edges.
   */
  lemma ReachIffUniqueOwners(h: Heap, e: Edge)
    requires EdgeIn(h, e)
    ensures ReachEdge(h, e, EmptyMap).Ok? <==> UniqueOwners(h, EdgeSlots(e))
    ensures ReachEdge(h, e, EmptyMap).Ok? ==> ReachEdge(h, e, EmptyMap).value.seqno.Keys == OwnReach(h, EdgeTargets(e))
  {
    ReachEdgeOwnership(h, e, EmptyMap);
    if ReachEdge(h, e, EmptyMap).Ok? {
      assert New(EmptyMap, ReachEdge(h, e, EmptyMap).value) == ReachEdge(h, e, EmptyMap).value.seqno.Keys;
    }
  }

  /**
   Two different reachable nodes owning a common child (siblings' or
   cousins' children alike) make the reachability pass fail.
   */
  lemma SharedOwnerRejected(h: Heap, e: Edge, n1: NodeId, n2: NodeId, c: NodeId)
    requires EdgeIn(h, e)
    requires n1 in OwnReach(h, EdgeTargets(e)) && n2 in OwnReach(h, EdgeTargets(e)) && n1 != n2
    requires c in OwnedTargets(h.nodes[n1]) && c in OwnedTargets(h.nodes[n2])
    ensures ReachEdge(h, e, EmptyMap) == Err(NotWellFormed)
  {
    ReachIffUniqueOwners(h, e);
    EdgeSlotsOwned(e);
  }
}
