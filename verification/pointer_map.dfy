/**
 The serialize-side identity registry: every node reached through an
 owning edge gets a sequence number, keyed by its address.
 */
module PointerMaps {
  import opened Results
  import opened Graph

  /**
   `seqno` maps node addresses to sequence numbers; `next` is the number the
   next registration receives.
   */
  datatype PointerMap = PointerMap(seqno: map<NodeId, nat>, next: nat)

  const EmptyMap := PointerMap(map[], 0)

  /** Numbers are unique and below `next`: the registry assigns stable, distinct numbers. */
  predicate Valid(pm: PointerMap) {
    && (forall k :: k in pm.seqno ==> pm.seqno[k] < pm.next)
    && (forall k, k' :: k in pm.seqno && k' in pm.seqno && k != k' ==> pm.seqno[k] != pm.seqno[k'])
  }

  /**
   Registers a node and gives it a sequence number; registering a node a
   second time is a duplicate and raises NotWellFormed.
   */
  function Add(pm: PointerMap, id: NodeId): (r: Result<PointerMap>)
    ensures r.Err? <==> id in pm.seqno
    ensures r.Err? ==> r.error == NotWellFormed
    ensures r.Ok? ==> r.value.seqno.Keys == pm.seqno.Keys + {id}
    ensures r.Ok? ==> forall k :: k in pm.seqno ==> r.value.seqno[k] == pm.seqno[k]
    ensures r.Ok? && Valid(pm) ==> Valid(r.value)
  {
    if id in pm.seqno then Err(NotWellFormed)
    else Ok(PointerMap(pm.seqno[id := pm.next], pm.next + 1))
  }

  /**
   Returns the sequence number of a registered node. The key is the raw
   pointer of the edge, so an empty edge (null) is never registered and its
   lookup fails like that of any unregistered node.
   */
  function Get(pm: PointerMap, key: Option<NodeId>): (r: Result<nat>)
    ensures r.Ok? <==> key.Some? && key.value in pm.seqno
    ensures r.Err? ==> r.error == NotWellFormed
    ensures r.Ok? ==> r.value == pm.seqno[key.value]
  {
    if key.Some? && key.value in pm.seqno then Ok(pm.seqno[key.value]) else Err(NotWellFormed)
  }

  lemma EmptyMapValid()
    ensures Valid(EmptyMap)
  {
  }
}
