/**
 The edge containers' mutators and accessors: `Maybe`/`One` (a single
 owning handle), `Any`/`Many` (a vector of `One` handles) and
 `OptLink`/`Link` (a weak handle). Required-ness of `One`, `Many` and
 `Link` is only checked by validation, so the required variants share the
 operations of their optional counterparts.
 */
module Containers {
  import opened Results
  import opened Graph

  // ---------------------------------------------------------------------
  // Allocation and expiry

  /**
   `make<T>(...)`: allocates a node at a fresh address and returns a `One`
   to it. The node's own owning edges must already refer to live nodes.
   */
  function Make(h: Heap, n: Node): (r: (Heap, Option<NodeId>))
    requires OwnedTargets(n) <= h.nodes.Keys
    ensures r.1.Some? && r.1.value !in h.nodes
    ensures r.0.nodes == h.nodes[r.1.value := n]
  {
    (Store(h.nodes[h.next := n], h.next + 1), Some(h.next))
  }

  /**
   The last owning handle of `id` is released: the object is destroyed.
   Only possible once no owning edge in the heap still holds it.
   */
  function Expire(h: Heap, id: NodeId): (r: Heap)
    requires forall k :: k in h.nodes ==> id !in OwnedTargets(h.nodes[k])
    ensures id !in r.nodes
    ensures forall k :: k in h.nodes && k != id ==> k in r.nodes && r.nodes[k] == h.nodes[k]
  {
    Store(h.nodes - {id}, h.next)
  }

  // ---------------------------------------------------------------------
  // Maybe / One

  /** `Maybe::empty()`. */
  predicate MaybeEmpty(x: Option<NodeId>) {
    x.None?
  }

  /** `Maybe::size()`: the number of nodes held, never more than one. */
  function MaybeSize(x: Option<NodeId>): (r: nat)
    ensures r <= 1
    ensures r == 0 <==> MaybeEmpty(x)
  {
    if x.Some? then 1 else 0
  }

  /** `Maybe::deref()`: the referenced node, or OutOfRange when empty. */
  function MaybeDeref(x: Option<NodeId>): (r: Result<NodeId>)
    ensures r.Err? <==> MaybeEmpty(x)
    ensures r.Err? ==> r.error == OutOfRange
    ensures r.Ok? ==> x == Some(r.value)
  {
    if x.Some? then Ok(x.value) else Err(OutOfRange)
  }

  /**
   `Maybe::operator==`. Two filled edges to the same object are equal
   without comparing values; two filled edges to different objects compare
   the objects (`same`, the generated node comparison); otherwise the
   handles themselves are compared, so two empty edges are equal and an
   empty edge never equals a filled one.
   */
  function MaybeEq(a: Option<NodeId>, b: Option<NodeId>, same: (NodeId, NodeId) -> bool): (r: bool)
    ensures a.None? && b.None? ==> r
    ensures a.None? != b.None? ==> !r
    ensures a.Some? && a == b ==> r
    ensures a.Some? && b.Some? && a != b ==> (r <==> same(a.value, b.value))
  {
    if a.Some? && b.Some? then
      if a == b then true else same(a.value, b.value)
    else
      a == b
  }

  // ---------------------------------------------------------------------
  // Any / Many

  /**
   `Any::add(ob, pos)`: no-op for an empty source; appends for a negative
   or past-the-end position; otherwise inserts before index `pos`.
   */
  function AnyAdd(xs: seq<Option<NodeId>>, ob: Option<NodeId>, pos: int): (r: seq<Option<NodeId>>)
    ensures ob.None? ==> r == xs
    ensures ob.Some? ==> |r| == |xs| + 1
    ensures ob.Some? && (pos < 0 || pos >= |xs|) ==> r[|xs|] == ob && r[..|xs|] == xs
    ensures ob.Some? && 0 <= pos < |xs| ==>
      && r[pos] == ob
      && (forall i :: 0 <= i < pos ==> r[i] == xs[i])
      && (forall i :: pos <= i < |xs| ==> r[i + 1] == xs[i])
  {
    if ob.None? then xs
    else if pos < 0 || pos >= |xs| then xs + [ob]
    else xs[..pos] + [ob] + xs[pos..]
  }

  /**
   `Any::remove(pos)`: no-op on an empty vector; a negative or out-of-range
   position removes the last element; otherwise erases index `pos`.
   */
  function AnyRemove(xs: seq<Option<NodeId>>, pos: int): (r: seq<Option<NodeId>>)
    ensures |xs| == 0 ==> r == xs
    ensures |xs| > 0 ==> |r| == |xs| - 1
    ensures |xs| > 0 && (pos < 0 || pos >= |xs|) ==> r == xs[..|xs| - 1]
    ensures 0 <= pos < |xs| ==>
      && (forall i :: 0 <= i < pos ==> r[i] == xs[i])
      && (forall i :: pos <= i < |r| ==> r[i] == xs[i + 1])
  {
    if |xs| == 0 then xs
    else
      var p := if pos < 0 || pos >= |xs| then |xs| - 1 else pos;
      xs[..p] + xs[p + 1..]
  }

  /** `Any::extend(other)`: appends all of `other`'s handles, in order. */
  function AnyExtend(xs: seq<Option<NodeId>>, other: seq<Option<NodeId>>): (r: seq<Option<NodeId>>)
    ensures |r| == |xs| + |other|
    ensures forall i :: 0 <= i < |xs| ==> r[i] == xs[i]
    ensures forall i :: 0 <= i < |other| ==> r[|xs| + i] == other[i]
  {
    xs + other
  }

  /**
   `Any::emplace<S>(args...)`: allocates a new node and appends a handle
   to it.
   */
  function AnyEmplace(h: Heap, xs: seq<Option<NodeId>>, n: Node): (r: (Heap, seq<Option<NodeId>>))
    requires OwnedTargets(n) <= h.nodes.Keys
    ensures |r.1| == |xs| + 1 && r.1[..|xs|] == xs
    ensures r.1[|xs|].Some? && r.1[|xs|].value !in h.nodes
    ensures r.1[|xs|].value in r.0.nodes && r.0.nodes[r.1[|xs|].value] == n
  {
    var (h', one) := Make(h, n);
    (h', xs + [one])
  }

  /** `Any::empty()`. */
  predicate AnyEmpty(xs: seq<Option<NodeId>>) {
    |xs| == 0
  }

  /**
   `Any::at(index)`: bounds-checked element access. The check is the one of
   `std::vector::at`, so an index past the end raises the standard
   `std::out_of_range`, not the library's own `OutOfRange`.
   */
  function AnyAt(xs: seq<Option<NodeId>>, index: nat): (r: Result<Option<NodeId>>)
    ensures r.Err? <==> index >= |xs|
    ensures r.Err? ==> r.error == StdOutOfRange
    ensures r.Ok? ==> r.value == xs[index]
  {
    if index < |xs| then Ok(xs[index]) else Err(StdOutOfRange)
  }

  /** `Any::front()`: the first handle, or an empty `Maybe` for an empty vector. */
  function AnyFront(xs: seq<Option<NodeId>>): (r: Option<NodeId>)
    ensures AnyEmpty(xs) ==> MaybeEmpty(r)
    ensures !AnyEmpty(xs) ==> AnyAt(xs, 0) == Ok(r)
  {
    if |xs| == 0 then None else xs[0]
  }

  /** `Any::back()`: the last handle, or an empty `Maybe` for an empty vector. */
  function AnyBack(xs: seq<Option<NodeId>>): (r: Option<NodeId>)
    ensures AnyEmpty(xs) ==> MaybeEmpty(r)
    ensures !AnyEmpty(xs) ==> AnyAt(xs, |xs| - 1) == Ok(r)
  {
    if |xs| == 0 then None else xs[|xs| - 1]
  }

  /** `Any::operator==`: element-wise `One` comparison of the two vectors. */
  function AnyEq(xs: seq<Option<NodeId>>, ys: seq<Option<NodeId>>, same: (NodeId, NodeId) -> bool): (r: bool)
    ensures r <==> |xs| == |ys| && forall i :: 0 <= i < |xs| ==> MaybeEq(xs[i], ys[i], same)
  {
    if |xs| != |ys| then false
    else if xs == [] then true
    else MaybeEq(xs[0], ys[0], same) && AnyEq(xs[1..], ys[1..], same)
  }

  /** Adding at a position and removing at that same position restores the vector. */
  lemma AddThenRemove(xs: seq<Option<NodeId>>, c: NodeId, pos: int)
    ensures AnyRemove(AnyAdd(xs, Some(c), pos), pos) == xs
  {
    var ys := AnyAdd(xs, Some(c), pos);
    var zs := AnyRemove(ys, pos);
    assert |zs| == |xs|;
    if 0 <= pos < |xs| {
      forall i | 0 <= i < |xs| ensures zs[i] == xs[i] {
        if i >= pos {
          assert zs[i] == ys[i + 1];
        }
      }
    } else {
      assert zs == ys[..|xs|];
    }
  }

  /** An appended handle is what `back()` returns and what `at()` finds at the end. */
  lemma AddAppendsAtBack(xs: seq<Option<NodeId>>, c: NodeId)
    ensures AnyBack(AnyAdd(xs, Some(c), -1)) == Some(c)
    ensures AnyAt(AnyAdd(xs, Some(c), -1), |xs|) == Ok(Some(c))
  {
  }

  // ---------------------------------------------------------------------
  // OptLink / Link

  /** `OptLink::size()`. */
  function LinkSize(h: Heap, l: Option<NodeId>): (r: nat)
    ensures r <= 1
    ensures r == 0 <==> LinkEmpty(h, l)
  {
    if Live(h, l) then 1 else 0
  }

  /** `OptLink::deref()`: the observed node, or OutOfRange once it expired. */
  function LinkDeref(h: Heap, l: Option<NodeId>): (r: Result<NodeId>)
    ensures r.Err? <==> LinkEmpty(h, l)
    ensures r.Err? ==> r.error == OutOfRange
    ensures r.Ok? ==> l == Some(r.value) && r.value in h.nodes
  {
    if Live(h, l) then Ok(l.value) else Err(OutOfRange)
  }

  /**
   `OptLink::operator==`: compares the locked handles, so two links are
   equal when both have expired or both observe the same live node.
   */
  function LinkEq(h: Heap, a: Option<NodeId>, b: Option<NodeId>): (r: bool)
    ensures r <==> (LinkEmpty(h, a) && LinkEmpty(h, b)) || (Live(h, a) && a == b)
  {
    LiveKey(h, a) == LiveKey(h, b)
  }

  /**
   `OptLink::links_to(target)`: whether the link observes the node held by
   the owning edge `target` (an empty target matches an empty link).
   */
  function LinksTo(h: Heap, l: Option<NodeId>, target: Option<NodeId>): (r: bool)
    requires SlotIn(h, target)
    ensures r <==> (target.None? && LinkEmpty(h, l)) || (target.Some? && l == target)
  {
    LiveKey(h, l) == target
  }

  /**
   Assigning an owning edge to a link makes it observe that edge's node;
   while that node lives, dereferencing the link finds it.
   */
  lemma LinkObservesAssignedNode(h: Heap, m: Option<NodeId>)
    requires SlotIn(h, m)
    ensures LinkDeref(h, m) == MaybeDeref(m)
    ensures LinksTo(h, m, m)
  {
  }

  /**
   Once the last owning handle of a node is released, every link observing
   it reports empty and refuses to dereference, with no notification.
   */
  lemma ExpiredLinkIsEmpty(h: Heap, id: NodeId)
    requires forall k :: k in h.nodes ==> id !in OwnedTargets(h.nodes[k])
    ensures LinkEmpty(Expire(h, id), Some(id))
    ensures LinkDeref(Expire(h, id), Some(id)) == Err(OutOfRange)
    ensures LinkEq(Expire(h, id), Some(id), None)
  {
  }
}
