/**
 The serialization protocol of the edge containers.

 Each edge is written as one record tagged with its kind under `@T`:
 a single owning edge writes `@t` = null when empty, and otherwise the
 node's sequence number under `@i` followed by the node's own body; a
 sequence edge writes the list of its `One` records under `@d`; a link
 writes the sequence number of the node it observes under `@l`.

 A generated node body is modelled as `@t` (the payload, which for a
 generated node starts with its type name) and `@e` (the records of its
 fields in order). Decoding a body dispatches on `@t` through a `Schema`
 that gives, per node type, the kinds of its fields.

 Deserialization is two-phase: the owning structure is rebuilt bottom-up
 while an `IdentifierMap` records which new node each sequence number
 became and queues every link with the number it must observe; the queue
 is then resolved by `RestoreLinks`, and the result is validated.
 */
module Serdes {
  import opened Results
  import opened Graph
  import opened PointerMaps
  import opened Validation
  import opened Records

  /** The `@T` value of each edge kind (`serdes_edge_type`). */
  function Tag(k: EdgeKind): string {
    match k
    case MaybeKind => "?"
    case OneKind => "1"
    case AnyKind => "*"
    case ManyKind => "+"
    case OptLinkKind => "@"
    case LinkKind => "$"
  }

  predicate IsLinkKind(k: EdgeKind) {
    k == OptLinkKind || k == LinkKind
  }

  /** The field kinds of each generated node type, keyed by type name. */
  type Schema = map<string, seq<EdgeKind>>

  // ---------------------------------------------------------------------
  // Serialization

  /**
   `Maybe::serialize` (and `One`): the tag, then either a null `@t` or the
   node's sequence number and its body. An owning cycle would make the
   source recurse forever; the model reports it as NotWellFormed, which
   cannot happen after a successful reachability pass.
   */
  function EmitSlot(h: Heap, x: Option<NodeId>, tag: string, pm: PointerMap, anc: set<NodeId>): (r: Result<seq<Field>>)
    requires SlotIn(h, x)
    ensures r.Err? ==> r.error == NotWellFormed
    ensures r.Ok? ==> DistinctKeys(r.value) && At(r.value, "@T") == Ok(Str(tag))
    ensures r.Ok? ==> (At(r.value, "@t") == Ok(Null) <==> x.None?)
    ensures r.Ok? && x.Some? ==> x.value in pm.seqno && At(r.value, "@i") == Ok(Int(pm.seqno[x.value]))
    decreases h.nodes.Keys - anc, 0
  {
    match x
    case None =>
      var fs := [Field("@T", Str(tag)), Field("@t", Null)];
      AtDistinct(fs, 0);
      AtDistinct(fs, 1);
      Ok(fs)
    case Some(c) =>
      if c in anc then Err(NotWellFormed)
      else
        var i :- Get(pm, x);
        var es :- EmitEdges(h, h.nodes[c].edges, pm, anc + {c});
        var fs := [Field("@T", Str(tag)), Field("@i", Int(i)), Field("@t", Str(h.nodes[c].payload)), Field("@e", Arr(es))];
        AtDistinct(fs, 0);
        AtDistinct(fs, 1);
        AtDistinct(fs, 2);
        Ok(fs)
  }

  /** The `@d` list of an `Any`/`Many`: one `One` record per element. */
  function EmitSlots(h: Heap, xs: seq<Option<NodeId>>, pm: PointerMap, anc: set<NodeId>): (r: Result<seq<Value>>)
    requires SlotsTargets(xs) <= h.nodes.Keys
    ensures r.Err? ==> r.error == NotWellFormed
    ensures r.Ok? ==> |r.value| == |xs|
    decreases h.nodes.Keys - anc, |xs| + 1
  {
    if xs == [] then Ok([])
    else
      var fs :- EmitSlot(h, xs[0], Tag(OneKind), pm, anc);
      var rest :- EmitSlots(h, xs[1..], pm, anc);
      Ok([Rec(fs)] + rest)
  }

  /**
   `serialize` of one edge. A link writes the number of the node it
   observes; for an empty link that lookup is of the null pointer, which
   is never registered, so serializing an empty `OptLink` fails.
   */
  function EmitEdge(h: Heap, e: Edge, pm: PointerMap, anc: set<NodeId>): (r: Result<Value>)
    requires EdgeIn(h, e)
    ensures r.Err? ==> r.error == NotWellFormed
    ensures e.IsLink() ==> (r.Ok? <==> Live(h, e.link) && e.link.value in pm.seqno)
    ensures r.Ok? ==> r.value.Rec? && At(r.value.fields, "@T") == Ok(Str(Tag(e.Kind())))
    decreases h.nodes.Keys - anc, EdgeRank(e)
  {
    var tag := Tag(e.Kind());
    if e.IsSingle() then
      var fs :- EmitSlot(h, e.target, tag, pm, anc);
      Ok(Rec(fs))
    else if e.IsSequence() then
      var vs :- EmitSlots(h, e.elems, pm, anc);
      var fs := [Field("@T", Str(tag)), Field("@d", Arr(vs))];
      AtDistinct(fs, 0);
      Ok(Rec(fs))
    else
      var i :- Get(pm, LiveKey(h, e.link));
      var fs := [Field("@T", Str(tag)), Field("@l", Int(i))];
      AtDistinct(fs, 0);
      Ok(Rec(fs))
  }

  /** A generated node's `serialize`: the records of its fields in order. */
  function EmitEdges(h: Heap, es: seq<Edge>, pm: PointerMap, anc: set<NodeId>): (r: Result<seq<Value>>)
    requires EdgesIn(h, es)
    ensures r.Err? ==> r.error == NotWellFormed
    ensures r.Ok? ==> |r.value| == |es|
    decreases h.nodes.Keys - anc, EdgesRank(es)
  {
    if es == [] then Ok([])
    else
      var v :- EmitEdge(h, es[0], pm, anc);
      var rest :- EmitEdges(h, es[1..], pm, anc);
      Ok([v] + rest)
  }

  /**
   The `serialize` entry point: the reachability pass numbers every node
   before anything is written, the completeness pass refuses an
   incomplete tree, then the root `Maybe` is written.
   */
  function Serialize(h: Heap, root: Option<NodeId>): (r: Result<Value>)
    requires SlotIn(h, root)
    ensures r.Err? ==> r.error == NotWellFormed
    ensures r.Ok? ==> IsWellFormed(h, MaybeEdge(root))
  {
    var pm :- ReachEdge(h, MaybeEdge(root), EmptyMap);
    var _ :- CompleteEdge(h, MaybeEdge(root), pm, {});
    EmitEdge(h, MaybeEdge(root), pm, {})
  }

  // ---------------------------------------------------------------------
  // Reconstruction registry

  /** A queued link: field `index` of node `owner` must observe node number `id`. */
  datatype Pending = Pending(owner: NodeId, index: nat, id: int)

  /** `IdentifierMap`: number-to-node table and the queue of links to restore. */
  datatype IdentifierMap = IdentifierMap(nodes: map<int, NodeId>, links: seq<Pending>)

  /** The state threaded through decoding: the heap being built and the registry. */
  datatype DState = DState(heap: Heap, ids: IdentifierMap)

  const EmptyState := DState(Store(map[], 0), IdentifierMap(map[], []))

  /** Every queued entry designates a link field of a live node. */
  predicate PendingOk(h: Heap, links: seq<Pending>) {
    forall p :: p in links ==>
      p.owner in h.nodes && p.index < |h.nodes[p.owner].edges| && h.nodes[p.owner].edges[p.index].IsLink()
  }

  /** No two queued entries designate the same field. */
  predicate PendingDistinct(links: seq<Pending>) {
    forall a, b :: 0 <= a < b < |links| ==>
      links[a].owner != links[b].owner || links[a].index != links[b].index
  }

  predicate StateOk(st: DState) {
    PendingOk(st.heap, st.ids.links) && PendingDistinct(st.ids.links)
  }

  /** `h'` only adds nodes to `h`, at addresses `h` had not handed out. */
  predicate Extends(h: Heap, h': Heap) {
    && h.next <= h'.next
    && h.nodes.Keys <= h'.nodes.Keys
    && (forall k :: k in h.nodes ==> h'.nodes[k] == h.nodes[k])
    && (forall k :: k in h'.nodes && k !in h.nodes ==> h.next <= k)
  }

  // ---------------------------------------------------------------------
  // Deserialization, phase one

  /** The `@l` number of a link record, read by the generated node decoder. */
  function LinkId(v: Value): Result<int> {
    var fs :- AsRec(v);
    var l :- At(fs, "@l");
    AsInt(l)
  }

  /**
   Queues the link fields of node `owner` (from field `j` on), each with
   the number its record names.
   */
  function PendingLinks(owner: NodeId, evs: seq<Value>, kinds: seq<EdgeKind>, j: nat): (r: Result<seq<Pending>>)
    requires |evs| == |kinds| && j <= |kinds|
    ensures r.Ok? <==> forall k :: j <= k < |kinds| && IsLinkKind(kinds[k]) ==> LinkId(evs[k]).Ok?
    ensures r.Ok? ==> forall p :: p in r.value ==>
                        p.owner == owner && j <= p.index < |kinds| && IsLinkKind(kinds[p.index]) && LinkId(evs[p.index]) == Ok(p.id)
    ensures r.Ok? ==> forall a, b :: 0 <= a < b < |r.value| ==> r.value[a].index < r.value[b].index
    ensures r.Ok? ==> forall k :: j <= k < |kinds| && IsLinkKind(kinds[k]) ==>
                        exists p :: p in r.value && p.index == k && LinkId(evs[k]) == Ok(p.id)
    decreases |kinds| - j
  {
    if j == |kinds| then Ok([])
    else if IsLinkKind(kinds[j]) then
      var id :- LinkId(evs[j]);
      var rest :- PendingLinks(owner, evs, kinds, j + 1);
      Ok([Pending(owner, j, id)] + rest)
    else
      PendingLinks(owner, evs, kinds, j + 1)
  }

  /** The result of decoding: what was rebuilt, and the state after it. */
  datatype Decoded<T> = Decoded(val: T, st: DState)

  /**
   `Maybe::deserialize` (and `One`): checks the tag before anything else;
   a null `@t` gives an empty edge; otherwise the node body is decoded
   (dispatching on its type name), the node is allocated, its links are
   queued, and it is registered under `@i`.
   */
  function DecodeSlot(sch: Schema, fs: seq<Field>, tag: string, st: DState): (r: Result<Decoded<Option<NodeId>>>)
    ensures At(fs, "@T").Ok? && At(fs, "@T").value.Str? && At(fs, "@T").value.s != tag ==> r == Err(RuntimeError)
    ensures r.Ok? ==> At(fs, "@T") == Ok(Str(tag))
    ensures r.Ok? ==> (At(fs, "@t") == Ok(Null) <==> r.value.val.None?)
    ensures r.Ok? && r.value.val.None? ==> r.value.st == st
    ensures r.Ok? && r.value.val.Some? ==>
      && r.value.val.value !in st.heap.nodes
      && At(fs, "@i").Ok? && At(fs, "@i").value.Int?
      && At(fs, "@i").value.i in r.value.st.ids.nodes
      && r.value.st.ids.nodes[At(fs, "@i").value.i] == r.value.val.value
    ensures r.Ok? ==> Extends(st.heap, r.value.st.heap) && SlotIn(r.value.st.heap, r.value.val)
    ensures r.Ok? && StateOk(st) ==> StateOk(r.value.st)
    decreases SizeFs(fs), 0
  {
    var tv :- At(fs, "@T");
    var t :- AsStr(tv);
    if t != tag then Err(RuntimeError)
    else
      var ty :- At(fs, "@t");
      if ty.Null? then Ok(Decoded(None, st))
      else
        var payload :- AsStr(ty);
        if payload !in sch then Err(RuntimeError)
        else
          var kinds := sch[payload];
          var ev :- At(fs, "@e");
          var evs :- AsArr(ev);
          if |evs| != |kinds| then Err(CodecError)
          else
            var d :- DecodeEdges(sch, evs, kinds, st);
            var h1 := d.st.heap;
            var c := h1.next;
            var pend :- PendingLinks(c, evs, kinds, 0);
            var iv :- At(fs, "@i");
            var i :- AsInt(iv);
            LinksFitEdges(d.val, kinds, pend, c);
            var st2 := Allocate(d.st, Node(payload, d.val), pend, i);
            Ok(Decoded(Some(c), st2))
  }

  /** Entries queued for fields of a link kind designate link fields of a node with those kinds. */
  lemma LinksFitEdges(es: seq<Edge>, kinds: seq<EdgeKind>, pend: seq<Pending>, owner: NodeId)
    requires |es| == |kinds| && forall j :: 0 <= j < |kinds| ==> es[j].Kind() == kinds[j]
    requires forall p :: p in pend ==> p.owner == owner && p.index < |kinds| && IsLinkKind(kinds[p.index])
    ensures forall p :: p in pend ==> p.owner == owner && p.index < |es| && es[p.index].IsLink()
  {
    forall p | p in pend ensures es[p.index].IsLink() {
      assert es[p.index].Kind() == kinds[p.index];
    }
  }

  /**
   Allocates a decoded node at the next fresh address, queues its links
   and registers it under its sequence number `i` (`register_node`, which
   overwrites an earlier registration of the same number).
   */
  function Allocate(st: DState, n: Node, pend: seq<Pending>, i: int): (r: DState)
    requires OwnedTargets(n) <= st.heap.nodes.Keys
    requires forall p :: p in pend ==> p.owner == st.heap.next && p.index < |n.edges| && n.edges[p.index].IsLink()
    requires forall a, b :: 0 <= a < b < |pend| ==> pend[a].index < pend[b].index
    ensures Extends(st.heap, r.heap)
    ensures r.heap.nodes == st.heap.nodes[st.heap.next := n] && r.heap.next == st.heap.next + 1
    ensures r.ids.nodes == st.ids.nodes[i := st.heap.next] && r.ids.links == st.ids.links + pend
    ensures StateOk(st) ==> StateOk(r)
  {
    var c := st.heap.next;
    var h2 := Store(st.heap.nodes[c := n], c + 1);
    var r := DState(h2, IdentifierMap(st.ids.nodes[i := c], st.ids.links + pend));
    assert StateOk(st) ==> StateOk(r) by {
      if StateOk(st) {
        forall p | p in r.ids.links
          ensures p.owner in h2.nodes && p.index < |h2.nodes[p.owner].edges| && h2.nodes[p.owner].edges[p.index].IsLink()
        {
          if p !in st.ids.links {
            assert p in pend;
          }
        }
      }
    }
    r
  }

  /** The elements of an `Any`/`Many`: each a `One` record. */
  function DecodeSlots(sch: Schema, vs: seq<Value>, st: DState): (r: Result<Decoded<seq<Option<NodeId>>>>)
    ensures r.Ok? ==> Extends(st.heap, r.value.st.heap) && SlotsTargets(r.value.val) <= r.value.st.heap.nodes.Keys
    ensures r.Ok? ==> |r.value.val| == |vs|
    ensures r.Ok? && StateOk(st) ==> StateOk(r.value.st)
    decreases SizeVs(vs), 0
  {
    if vs == [] then Ok(Decoded([], st))
    else
      var fs :- AsRec(vs[0]);
      var d :- DecodeSlot(sch, fs, Tag(OneKind), st);
      var rest :- DecodeSlots(sch, vs[1..], d.st);
      Ok(Decoded([d.val] + rest.val, rest.st))
  }

  /**
   `deserialize` of one edge of the expected kind. A record tagged with
   another kind is a schema-validation failure. A link decodes to an empty
   link; the node that holds it queues it for restoration.
   */
  function DecodeEdge(sch: Schema, v: Value, kind: EdgeKind, st: DState): (r: Result<Decoded<Edge>>)
    ensures (v.Rec? && At(v.fields, "@T").Ok? && At(v.fields, "@T").value.Str? &&
             At(v.fields, "@T").value.s != Tag(kind)) ==> r == Err(RuntimeError)
    ensures r.Ok? ==> r.value.val.Kind() == kind
    ensures r.Ok? && r.value.val.IsLink() ==> r.value.val.link.None?
    ensures r.Ok? ==> Extends(st.heap, r.value.st.heap) && EdgeIn(r.value.st.heap, r.value.val)
    ensures r.Ok? && StateOk(st) ==> StateOk(r.value.st)
    decreases SizeV(v), 0
  {
    var fs :- AsRec(v);
    match kind
    case MaybeKind =>
      var d :- DecodeSlot(sch, fs, Tag(kind), st);
      Ok(Decoded(MaybeEdge(d.val), d.st))
    case OneKind =>
      var d :- DecodeSlot(sch, fs, Tag(kind), st);
      Ok(Decoded(OneEdge(d.val), d.st))
    case AnyKind =>
      var d :- DecodeSequence(sch, fs, Tag(kind), st);
      Ok(Decoded(AnyEdge(d.val), d.st))
    case ManyKind =>
      var d :- DecodeSequence(sch, fs, Tag(kind), st);
      Ok(Decoded(ManyEdge(d.val), d.st))
    case OptLinkKind =>
      var _ :- CheckTag(fs, Tag(kind));
      Ok(Decoded(OptLinkEdge(None), st))
    case LinkKind =>
      var _ :- CheckTag(fs, Tag(kind));
      Ok(Decoded(LinkEdge(None), st))
  }

  /** The schema check every edge decoder starts with. */
  function CheckTag(fs: seq<Field>, tag: string): (r: Result<()>)
    ensures r.Ok? <==> At(fs, "@T").Ok? && At(fs, "@T").value == Str(tag)
    ensures At(fs, "@T").Ok? && At(fs, "@T").value.Str? && At(fs, "@T").value.s != tag ==> r == Err(RuntimeError)
  {
    var tv :- At(fs, "@T");
    var t :- AsStr(tv);
    if t != tag then Err(RuntimeError) else Ok(())
  }

  /** `Any::deserialize` (and `Many`): the tag, then each `@d` element in order. */
  function DecodeSequence(sch: Schema, fs: seq<Field>, tag: string, st: DState): (r: Result<Decoded<seq<Option<NodeId>>>>)
    ensures At(fs, "@T").Ok? && At(fs, "@T").value.Str? && At(fs, "@T").value.s != tag ==> r == Err(RuntimeError)
    ensures r.Ok? ==> Extends(st.heap, r.value.st.heap) && SlotsTargets(r.value.val) <= r.value.st.heap.nodes.Keys
    ensures r.Ok? && StateOk(st) ==> StateOk(r.value.st)
    decreases SizeFs(fs), 0
  {
    var _ :- CheckTag(fs, tag);
    var dv :- At(fs, "@d");
    var items :- AsArr(dv);
    DecodeSlots(sch, items, st)
  }

  /** A generated node's decoder: one record per field, of the schema's kind. */
  function DecodeEdges(sch: Schema, evs: seq<Value>, kinds: seq<EdgeKind>, st: DState): (r: Result<Decoded<seq<Edge>>>)
    requires |evs| == |kinds|
    ensures r.Ok? ==> |r.value.val| == |kinds| && forall j :: 0 <= j < |kinds| ==> r.value.val[j].Kind() == kinds[j]
    ensures r.Ok? ==> forall j :: 0 <= j < |kinds| && r.value.val[j].IsLink() ==> r.value.val[j].link.None?
    ensures r.Ok? ==> Extends(st.heap, r.value.st.heap) && EdgesIn(r.value.st.heap, r.value.val)
    ensures r.Ok? && StateOk(st) ==> StateOk(r.value.st)
    decreases SizeVs(evs), 1
  {
    if evs == [] then Ok(Decoded([], st))
    else
      var d :- DecodeEdge(sch, evs[0], kinds[0], st);
      var rest :- DecodeEdges(sch, evs[1..], kinds[1..], d.st);
      Ok(Decoded([d.val] + rest.val, rest.st))
  }

  // ---------------------------------------------------------------------
  // Deserialization, phase two and entry point

  /** `set_void_ptr`: a restored link observes `target`; its kind is unchanged. */
  function SetLink(e: Edge, target: NodeId): (r: Edge)
    requires e.IsLink()
    ensures r.IsLink() && r.Kind() == e.Kind() && r.link == Some(target)
  {
    if e.OptLinkEdge? then OptLinkEdge(Some(target)) else LinkEdge(Some(target))
  }

  /** Replacing a weak edge by another weak edge changes no ownership. */
  lemma {:induction false} LinkUpdateKeepsTargets(es: seq<Edge>, j: nat, e: Edge)
    requires j < |es| && es[j].IsLink() && e.IsLink()
    ensures EdgesTargets(es[j := e]) == EdgesTargets(es)
  {
    if j > 0 {
      LinkUpdateKeepsTargets(es[1..], j - 1, e);
      assert es[j := e][1..] == es[1..][j - 1 := e];
    }
  }

  /** Points field `index` of node `owner` (a weak edge) at `target`. */
  function Relink(h: Heap, owner: NodeId, index: nat, target: NodeId): (r: Heap)
    requires owner in h.nodes && index < |h.nodes[owner].edges| && h.nodes[owner].edges[index].IsLink()
    ensures r.next == h.next && r.nodes.Keys == h.nodes.Keys
    ensures forall k :: k in h.nodes && k != owner ==> r.nodes[k] == h.nodes[k]
    ensures r.nodes[owner].payload == h.nodes[owner].payload
    ensures r.nodes[owner].edges == h.nodes[owner].edges[index := SetLink(h.nodes[owner].edges[index], target)]
  {
    var n := h.nodes[owner];
    var e := SetLink(n.edges[index], target);
    LinkUpdateKeepsTargets(n.edges, index, e);
    Store(h.nodes[owner := Node(n.payload, n.edges[index := e])], h.next)
  }

  /**
   `restore_links`: points every queued link at the node registered under
   its number, in queue order. A number that no node was registered under
   cannot be resolved and fails the call.
   */
  function RestoreLinks(h: Heap, nodes: map<int, NodeId>, links: seq<Pending>): (r: Result<Heap>)
    requires PendingOk(h, links)
    ensures r.Ok? <==> forall p :: p in links ==> p.id in nodes
    ensures r.Err? ==> r.error == NotWellFormed
    ensures r.Ok? ==> r.value.next == h.next && r.value.nodes.Keys == h.nodes.Keys
    decreases |links|
  {
    if links == [] then Ok(h)
    else
      var p := links[0];
      if p.id !in nodes then Err(NotWellFormed)
      else
        var h1 := Relink(h, p.owner, p.index, nodes[p.id]);
        PendingOkAfterRelink(h, links, nodes[p.id]);
        var r := RestoreLinks(h1, nodes, links[1..]);
        assert forall q :: q in links ==> q == p || q in links[1..];
        r
  }

  /** Patching the head of the queue keeps the rest of the queue designating link fields. */
  lemma PendingOkAfterRelink(h: Heap, links: seq<Pending>, target: NodeId)
    requires PendingOk(h, links) && links != []
    ensures links[0] in links
    ensures PendingOk(Relink(h, links[0].owner, links[0].index, target), links[1..])
  {
    var h1 := Relink(h, links[0].owner, links[0].index, target);
    forall q | q in links[1..]
      ensures q.owner in h1.nodes && q.index < |h1.nodes[q.owner].edges| && h1.nodes[q.owner].edges[q.index].IsLink()
    {
      assert q in links;
    }
  }

  /** Same payload, same number of fields, same kind of field at each position. */
  predicate SameShape(n: Node, n': Node) {
    && n'.payload == n.payload
    && |n'.edges| == |n.edges|
    && forall j :: 0 <= j < |n.edges| ==> n'.edges[j].Kind() == n.edges[j].Kind()
  }

  /** Restoring links keeps every node's payload, field count and field kinds. */
  lemma {:induction false} RestoreKeepsShape(h: Heap, nodes: map<int, NodeId>, links: seq<Pending>, k: NodeId)
    requires PendingOk(h, links) && RestoreLinks(h, nodes, links).Ok? && k in h.nodes
    ensures SameShape(h.nodes[k], RestoreLinks(h, nodes, links).value.nodes[k])
    decreases |links|
  {
    if links != [] {
      var p := links[0];
      var h1 := Relink(h, p.owner, p.index, nodes[p.id]);
      PendingOkAfterRelink(h, links, nodes[p.id]);
      RestoreKeepsShape(h1, nodes, links[1..], k);
    }
  }

  /** A field that no queued entry names is left as it was. */
  lemma {:induction false} RestoreKeepsField(h: Heap, nodes: map<int, NodeId>, links: seq<Pending>, k: NodeId, j: nat)
    requires PendingOk(h, links) && RestoreLinks(h, nodes, links).Ok?
    requires k in h.nodes && j < |h.nodes[k].edges|
    requires forall q :: q in links ==> q.owner != k || q.index != j
    ensures RestoreKeepsShapeAt(h, nodes, links, k) && RestoreLinks(h, nodes, links).value.nodes[k].edges[j] == h.nodes[k].edges[j]
    decreases |links|
  {
    RestoreKeepsShape(h, nodes, links, k);
    if links != [] {
      var p := links[0];
      assert p in links;
      var h1 := Relink(h, p.owner, p.index, nodes[p.id]);
      PendingOkAfterRelink(h, links, nodes[p.id]);
      assert forall q :: q in links[1..] ==> q in links;
      RestoreKeepsField(h1, nodes, links[1..], k, j);
    }
  }

  predicate RestoreKeepsShapeAt(h: Heap, nodes: map<int, NodeId>, links: seq<Pending>, k: NodeId)
    requires PendingOk(h, links) && RestoreLinks(h, nodes, links).Ok? && k in h.nodes
  {
    SameShape(h.nodes[k], RestoreLinks(h, nodes, links).value.nodes[k])
  }

  /** When no two entries name the same field, every queued link ends up observing its registered node. */
  lemma {:induction false} RestorePatchesLink(h: Heap, nodes: map<int, NodeId>, links: seq<Pending>, p: Pending)
    requires PendingOk(h, links) && PendingDistinct(links) && RestoreLinks(h, nodes, links).Ok?
    requires p in links
    ensures p.id in nodes && RestoreKeepsShapeAt(h, nodes, links, p.owner)
    ensures RestoreLinks(h, nodes, links).value.nodes[p.owner].edges[p.index] == SetLink(h.nodes[p.owner].edges[p.index], nodes[p.id])
    decreases |links|
  {
    RestoreKeepsShape(h, nodes, links, p.owner);
    var p0 := links[0];
    var h1 := Relink(h, p0.owner, p0.index, nodes[p0.id]);
    PendingOkAfterRelink(h, links, nodes[p0.id]);
    assert PendingDistinct(links[1..]) by {
      forall a, b | 0 <= a < b < |links[1..]|
        ensures links[1..][a].owner != links[1..][b].owner || links[1..][a].index != links[1..][b].index
      {
        assert links[1..][a] == links[a + 1] && links[1..][b] == links[b + 1];
      }
    }
    if p == p0 {
      forall q | q in links[1..] ensures q.owner != p.owner || q.index != p.index {
        var b :| 0 <= b < |links[1..]| && links[1..][b] == q;
        assert links[b + 1] == q;
      }
      RestoreKeepsField(h1, nodes, links[1..], p.owner, p.index);
    } else {
      var b :| 0 <= b < |links| && links[b] == p;
      assert b > 0 && links[1..][b - 1] == p;
      RestorePatchesLink(h1, nodes, links[1..], p);
      assert p0 in links;
      RelinkedFieldKeepsOthers(h, p0, p, nodes[p0.id]);
    }
  }

  /** Relinking one field leaves any other field as it was. */
  lemma RelinkedFieldKeepsOthers(h: Heap, p: Pending, q: Pending, target: NodeId)
    requires PendingOk(h, [p, q])
    requires q.owner != p.owner || q.index != p.index
    ensures Relink(h, p.owner, p.index, target).nodes[q.owner].edges[q.index] == h.nodes[q.owner].edges[q.index]
  {
    assert p in [p, q] && q in [p, q];
  }

  /** Phase one of `deserialize`: the root `Maybe` and the registry it filled. */
  function Build(sch: Schema, v: Value): (r: Result<Decoded<Option<NodeId>>>)
    ensures r.Ok? ==> SlotIn(r.value.st.heap, r.value.val) && StateOk(r.value.st)
  {
    var fs :- AsRec(v);
    assert StateOk(EmptyState);
    DecodeSlot(sch, fs, Tag(MaybeKind), EmptyState)
  }

  /**
   The `deserialize` entry point: rebuild the owning structure, restore
   the links, and validate the result, which is returned only if it is
   well-formed.
   */
  function Deserialize(sch: Schema, v: Value): (r: Result<(Heap, Option<NodeId>)>)
    ensures r.Ok? ==> SlotIn(r.value.0, r.value.1) && IsWellFormed(r.value.0, MaybeEdge(r.value.1))
  {
    var d :- Build(sch, v);
    var h :- RestoreLinks(d.st.heap, d.st.ids.nodes, d.st.ids.links);
    var _ :- CheckWellFormed(h, MaybeEdge(d.val));
    Ok((h, d.val))
  }
}
