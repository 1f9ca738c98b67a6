# tree-gen runtime edges, validation and serialization, in Dafny

This project models the runtime support library of tree-gen
(`include/tree-base.hpp`). Generated tree classes are built from this
library. It covers:

- the edge containers: `Maybe`/`One` owning single edges, `Any`/`Many`
  owning vectors, and `OptLink`/`Link` weak edges;
- the two validation passes, `find_reachable` (with the `PointerMap`
  registry) and `check_complete`, plus `check_well_formed`;
- the edge-level `serialize`/`deserialize` protocol, with the
  `IdentifierMap` and `restore_links`;
- the `serialize`/`deserialize` entry points;
- shallow `copy` and deep `clone`.

The object graph is a heap of nodes keyed by address (`Graph`). A node is a
payload plus an ordered list of edges. The payload stands for the generated
class name and its scalar fields; the edges stand for its generated fields.
An owning edge always refers to a live node. A weak edge may refer to a node
that no longer exists, and it is then empty. Node allocation is a bump
allocator, so `make` returns an address that was never used before.

The binary codec is replaced by structured records (`Records`): scalars,
lists and maps with keyed fields. Every record carries the same keys the
library writes: `@T` for the tag, `@t`, `@i`, `@d` and `@l`. A generated
node body becomes `@t` (the payload) followed by `@e` (its field records).
The node type dispatch becomes a `Schema`, which maps a type name to the
kinds of that type's fields.

Modules:

| file | module | contents |
|---|---|---|
| results.dfy | Results | `Option`, `Result`, the failure kinds |
| graph.dfy | Graph | nodes, edges, the heap, owned targets, liveness |
| pointer_map.dfy | PointerMaps | the `PointerMap` sequence-number registry |
| containers.dfy | Containers | `make`, expiry, and the operations of the six edge containers |
| copying.dfy | Copying | `copy` and `clone` of `Maybe`/`One` and `Any`/`Many` |
| validation.dfy | Validation | `find_reachable`, `check_complete`, `check_well_formed` |
| ownership.dfy | Ownership | reachability through owning edges and single ownership, defined without the passes |
| validation_props.dfy | ValidationProps | what the validation passes accept, stated node by node |
| records.dfy | Records | the record values that stand in for the binary codec |
| serdes.dfy | Serdes | edge serialization, two-phase deserialization, and both entry points |
| serdes_props.dfy | SerdesProps | when `serialize` succeeds |
| renaming.dfy | Renaming | a tree renamed through sequence numbers |
| transport.dfy | Transport | validation is invariant under renaming |
| roundtrip.dfy | RoundTrip | reading back what was written rebuilds the same tree |

The main results:

- `Ownership.ReachIffUniqueOwners`: `find_reachable` succeeds exactly when
  no node occupies two owning slots. This covers two elements of one
  vector, two fields of one node, two different nodes, and an owning
  cycle. On success it registers exactly the nodes reachable from the root
  through owning edges. Reachability is defined independently, as the
  least set that contains the root's children and is closed under owning
  edges.
- `ValidationProps.WellFormedIff`: `check_well_formed` succeeds exactly when
  both of these hold:
  - no node is owned twice, in the sense above;
  - every edge of the root and of every reachable node passes its local
    check. Required edges are filled, sequence elements are filled, and
    filled links observe reachable nodes.
- `SerdesProps.SerializeIff`: `serialize` succeeds exactly on well-formed
  trees in which no reachable link is empty. A consequence: a well-formed
  tree holding an empty `OptLink` cannot be serialized.
- `RoundTrip.RoundTrip`: for a tree that conforms to the schema, reading
  back what `serialize` wrote succeeds and rebuilds the same tree up to
  renaming. Every reachable node gets a distinct counterpart with the same
  payload. The counterpart owns the counterparts of the node's children and
  observes the counterparts of the node's link targets. The rebuilt tree is
  well-formed.
- `Copying.CloneWellFormed`: cloning a well-formed tree succeeds. It
  allocates exactly as many fresh nodes as the tree has. None of the fresh
  nodes owns an original node. The clone's root keeps the payload and field
  shape of the original root, and the root's links still observe the
  original targets.

## Model

| member | source | states |
|---|---|---|
| PointerMaps.Add | include/tree-base.hpp:94-99 | registering an already registered node fails with NotWellFormed. Otherwise exactly that node is added, earlier numbers are kept, and numbers stay distinct |
| PointerMaps.Get | include/tree-base.hpp:101-113 | the lookup succeeds exactly for a registered node and returns its number. An empty edge (null pointer) is never registered |
| Containers.Make | include/tree-base.hpp:676-680 | `make` returns a filled `One` to a node at an address not live before, and adds only that node to the heap |
| Containers.Expire | include/tree-base.hpp:1159-1166 | releasing the last owner removes exactly that node and leaves every other node unchanged |
| Containers.MaybeSize | include/tree-base.hpp:347-352 | the size is at most one, and zero exactly when the edge is empty |
| Containers.MaybeDeref | include/tree-base.hpp:354-367 | dereferencing fails with OutOfRange exactly when the edge is empty, and otherwise yields the held node |
| Containers.MaybeEq | include/tree-base.hpp:426-439 | two empty edges are equal, and an empty edge never equals a filled one. Two edges to the same node are equal without comparing; edges to different nodes compare the nodes |
| Containers.AnyAdd | include/tree-base.hpp:711-726 | adding an empty edge changes nothing. A negative or past-the-end position appends; otherwise the node is inserted before `pos` and later elements shift right by one |
| Containers.AnyRemove | include/tree-base.hpp:764-776 | removing from an empty vector changes nothing. A negative or out-of-range position removes the last element; otherwise element `pos` is erased and later elements shift left by one |
| Containers.AnyExtend | include/tree-base.hpp:757-762 | the result is the original elements followed by the other vector's elements, in order |
| Containers.AnyEmplace | include/tree-base.hpp:728-736 | appends a handle to a freshly allocated node holding the given contents and keeps the earlier elements |
| Containers.AnyAt | include/tree-base.hpp:799-813 | access fails with the standard `std::out_of_range` (StdOutOfRange), raised by the vector's own `at`, exactly when the index is past the end, and otherwise yields that element |
| Containers.AnyFront | include/tree-base.hpp:831-841 | an empty vector gives an empty `Maybe`; otherwise the result is element 0 |
| Containers.AnyBack | include/tree-base.hpp:855-865 | an empty vector gives an empty `Maybe`; otherwise the result is the last element |
| Containers.AnyEq | include/tree-base.hpp:947-952 | vectors are equal exactly when they have equal length and the `Maybe` comparison holds at every index |
| Containers.AddThenRemove | include/tree-base.hpp:714-776 | adding a node at any position and then removing at that same position restores the vector |
| Containers.AddAppendsAtBack | include/tree-base.hpp:714-726 | a node added with the default position is what `back()` returns and what `at(size)` finds |
| Containers.LinkSize | include/tree-base.hpp:1244-1249 | a link's size is at most one, and zero exactly when its node is gone or was never set |
| Containers.LinkDeref | include/tree-base.hpp:1251-1265 | dereferencing a link fails with OutOfRange exactly when it is empty, and otherwise yields its live target |
| Containers.LinkEq | include/tree-base.hpp:1347-1352 | two links are equal exactly when both are empty, or both observe the same live node |
| Containers.LinksTo | include/tree-base.hpp:1361-1367 | a link links to an owning edge exactly when it observes that edge's node, or when both are empty |
| Containers.LinkObservesAssignedNode | include/tree-base.hpp:1174-1178 | a link built from an owning edge dereferences to that edge's node and links to it |
| Containers.ExpiredLinkIsEmpty | include/tree-base.hpp:1237-1242 | once the observed node is released, the link reports empty, refuses to dereference, and equals an empty link |
| Copying.MaybeCopy | include/tree-base.hpp:650-660 | copying an empty edge gives an empty `One` and allocates nothing. Otherwise exactly one fresh node is allocated, equal to the original, so it owns the same children |
| Copying.AnyCopy | include/tree-base.hpp:1117-1127 | the copy holds one fresh, distinct node per filled element, in order, each equal to the node it copies. Empty elements are dropped, and nothing else is allocated |
| Copying.AnyCopyKeepsPositions | include/tree-base.hpp:1117-1127 | copying a vector without empty elements keeps its length and puts the copy of element `i` at index `i` |
| Copying.CopySharesChildren | include/tree-base.hpp:505-508 | a shallow copy is a new node, and each child of the original is owned by both the original and the copy |
| Copying.CloneSlot | include/tree-base.hpp:662-672 | cloning an empty edge gives an empty edge. Otherwise a fresh node keeps the payload, edge kinds, slot fill states and link targets, and owns no node allocated before the clone |
| Copying.CloneSlots | include/tree-base.hpp:1129-1139 | a cloned vector holds one fresh filled element per filled element of the original, and every node it owns is fresh |
| Copying.CloneEdge | include/tree-base.hpp:510-515 | a cloned link is the link itself and still observes the original node. A cloned owning edge keeps its kind and owns only fresh nodes |
| Copying.CloneEdges | include/tree-base.hpp:510-515 | the clone of a node's fields keeps their number and the shape of each one, and owns only fresh nodes |
| Copying.CloneSlotSucceeds | include/tree-base.hpp:662-672 | on a subtree the reachability pass registered, cloning meets no owning cycle and allocates exactly one node per registered node |
| Copying.CloneSlotsSucceed | include/tree-base.hpp:1129-1139 | cloning a vector whose nodes the reachability pass registered succeeds and allocates one node per registered node |
| Copying.CloneEdgeSucceeds | include/tree-base.hpp:510-515 | cloning a field whose subtree the reachability pass registered succeeds and allocates one node per registered node |
| Copying.CloneEdgesSucceed | include/tree-base.hpp:510-515 | cloning a node's fields whose subtrees the reachability pass registered succeeds and allocates one node per registered node |
| Copying.CloneWellFormed | include/tree-base.hpp:510-515 | cloning a well-formed tree yields an independent tree of the same size. Its root keeps the payload and the shape of every field, and its links still observe the original targets |
| Validation.ReachSlot | include/tree-base.hpp:476-487 | a filled edge registers its node, and a node registered twice fails with NotWellFormed. On success the subtree's nodes are newly registered and numbers stay distinct |
| Validation.ReachSlots | include/tree-base.hpp:975-985 | on success every node the elements hold is newly registered, and so are those nodes' own children |
| Validation.ReachEdge | include/tree-base.hpp:1369-1377 | links register nothing; owning edges register what they own |
| Validation.ReachEdges | include/tree-base.hpp:161-167 | on success every node they own is newly registered, and so are those nodes' own children |
| Validation.CompleteSlot | include/tree-base.hpp:611-627 | an empty `One` fails with NotWellFormed, an empty `Maybe` passes, and a filled edge recurses |
| Validation.CompleteSlots | include/tree-base.hpp:987-1001 | success implies that every element is filled |
| Validation.CompleteEdge | include/tree-base.hpp:169-179 | success implies the edge's local check holds: required edges filled, elements filled, a `Many` non-empty, filled links registered |
| Validation.CompleteEdges | include/tree-base.hpp:169-179 | success implies that every field passes its local check |
| Validation.CheckWellFormed | include/tree-base.hpp:181-193 | success implies that the reachability pass succeeds and the root edge passes its local check |
| ValidationProps.CompleteSlotMatches | include/tree-base.hpp:490-503 | after a successful reachability pass, checking an edge succeeds exactly when the edge is acceptable and every node of its subtree is locally complete |
| ValidationProps.CompleteSlotsMatch | include/tree-base.hpp:987-1001 | after a successful reachability pass, checking a vector succeeds exactly when all elements are filled and every node below them is locally complete |
| ValidationProps.CompleteEdgeMatches | include/tree-base.hpp:169-179 | checking one field succeeds exactly when the field and every node below it pass their local checks |
| ValidationProps.CompleteEdgesMatch | include/tree-base.hpp:169-179 | checking a node's fields succeeds exactly when every field and every node below them pass their local checks |
| ValidationProps.WellFormedIffRegistered | include/tree-base.hpp:181-193 | `check_well_formed` succeeds exactly when the reachability pass succeeds and every edge of the root and of every node it registered passes its local check |
| ValidationProps.WellFormedIff | include/tree-base.hpp:181-193 | `check_well_formed` succeeds exactly when no node is owned twice and every edge of the root and of every node reachable through owning edges passes its local check, with filled links observing reachable nodes |
| Ownership.ReachSlotOwnership | include/tree-base.hpp:476-487 | from a given registry, the pass over an edge succeeds exactly when its subtree is owned once and none of its reachable nodes is registered yet; it then registers exactly those nodes |
| Ownership.ReachSlotsOwnership | include/tree-base.hpp:975-985 | the pass over a vector succeeds exactly when the elements and their subtrees are owned once and none of them is registered yet; it then registers exactly the reachable nodes |
| Ownership.ReachEdgeOwnership | include/tree-base.hpp:1369-1377 | the pass over a field succeeds exactly when its owning slots are owned once and nothing reachable is registered; a link always passes and registers nothing |
| Ownership.ReachEdgesOwnership | include/tree-base.hpp:161-167 | the pass over a node's fields succeeds exactly when no node occupies two owning slots below them and nothing reachable is registered; it then registers exactly the reachable nodes |
| Ownership.ReachIffUniqueOwners | include/tree-base.hpp:161-167 | `find_reachable` from an empty registry succeeds exactly when no node is owned twice, and then registers exactly the nodes reachable through owning edges |
| Ownership.SharedOwnerRejected | include/tree-base.hpp:161-167 | two different reachable nodes owning the same child, siblings' or cousins' alike, make `find_reachable` fail with NotWellFormed |
| ValidationProps.SharedElementRejected | include/tree-base.hpp:975-985 | two elements of one vector holding the same node make the reachability pass fail |
| ValidationProps.SharedChildRejected | include/tree-base.hpp:476-487 | two fields of a node owning the same node make the reachability pass fail |
| Records.At | include/tree-base.hpp:535-543 | a field lookup succeeds exactly when the key is present, and otherwise fails as a reader error |
| Serdes.EmitSlot | include/tree-base.hpp:549-562 | the record carries the edge's tag. `@t` is null exactly for an empty edge, and a filled edge writes its node's number under `@i` |
| Serdes.EmitSlots | include/tree-base.hpp:1041-1053 | a vector writes one record per element |
| Serdes.EmitEdge | include/tree-base.hpp:1430-1436 | every record carries its kind's tag. A link record can be written exactly when the link observes a live, registered node |
| Serdes.EmitEdges | include/tree-base.hpp:1041-1053 | a node writes one record per field |
| Serdes.Serialize | include/tree-base.hpp:1554-1563 | writing succeeds only for a well-formed tree, and fails with NotWellFormed otherwise |
| Serdes.PendingLinks | include/tree-base.hpp:142-145 | every link field of a decoded node is queued once, in field order, with the number its record names. Queuing fails exactly when a link record has no readable number |
| Serdes.DecodeSlot | include/tree-base.hpp:526-545 | a record whose tag differs from the expected one fails with RuntimeError before anything is built. On success the tag matched, and the edge is empty exactly when `@t` is null, in which case nothing changes. Otherwise the edge refers to a fresh node registered under the number in `@i`, and nodes built earlier are kept unchanged |
| Serdes.Allocate | include/tree-base.hpp:541-543 | a decoded node gets a fresh address, is registered under its number (replacing any earlier entry), and its links are queued |
| Serdes.DecodeSlots | include/tree-base.hpp:1034-1036 | one element per record, each referring to a live node |
| Serdes.DecodeEdge | include/tree-base.hpp:1417-1426 | a record tagged with another kind fails with RuntimeError. A decoded field has the expected kind, and a decoded link is empty until restored |
| Serdes.CheckTag | include/tree-base.hpp:535-537 | the tag check passes exactly when `@T` is present and equals the expected tag |
| Serdes.DecodeSequence | include/tree-base.hpp:1027-1037 | a mismatching tag fails with RuntimeError; the decoded elements refer to live nodes |
| Serdes.DecodeEdges | include/tree-base.hpp:1411-1426 | a node's decoded fields have the schema's kinds, in order, and every decoded link is empty |
| Serdes.SetLink | include/tree-base.hpp:1404-1409 | a restored link observes the given node and keeps its kind |
| Serdes.Relink | include/tree-base.hpp:1404-1409 | restoring one link changes only that field of that node |
| Serdes.RestoreLinks | include/tree-base.hpp:143-149 | restoring succeeds exactly when every queued number was registered; it neither adds nor removes nodes |
| Serdes.RestoreKeepsShape | include/tree-base.hpp:143-149 | restoring links keeps every node's payload, field count and field kinds |
| Serdes.RestoreKeepsField | include/tree-base.hpp:143-149 | a field that no queued entry names is left as it was |
| Serdes.RestorePatchesLink | include/tree-base.hpp:143-149 | when no two entries name the same field, every queued link ends up observing the node registered under its number |
| Serdes.Build | include/tree-base.hpp:1590 | reading the root record yields an edge to a live node, and a registry whose queue names link fields of live nodes |
| Serdes.Deserialize | include/tree-base.hpp:1586-1594 | a tree is returned only if it is well-formed |
| SerdesProps.TagsDistinct | include/tree-base.hpp:522-524 | the six edge kinds have six distinct tags (`?`, `1`, `*`, `+`, `@`, `$`) |
| SerdesProps.EmitSlotMatches | include/tree-base.hpp:549-562 | after the reachability pass, writing an edge succeeds exactly when every link in its subtree can be written |
| SerdesProps.EmitSlotsMatch | include/tree-base.hpp:1046-1053 | writing a vector succeeds exactly when every link below it can be written |
| SerdesProps.EmitEdgeMatches | include/tree-base.hpp:1433-1436 | writing a field succeeds exactly when the field and every link below it can be written |
| SerdesProps.EmitEdgesMatch | include/tree-base.hpp:1046-1053 | writing a node's fields succeeds exactly when each field and every link below them can be written |
| SerdesProps.SerializeIff | include/tree-base.hpp:1554-1563 | `serialize` succeeds exactly when the tree is well-formed and no link of a node reachable through owning edges is empty |
| SerdesProps.EmittableIffLive | include/tree-base.hpp:1433-1436 | among locally complete nodes, a link can be written exactly when it is not empty |
| SerdesProps.EmptyOptLinkNotSerializable | include/tree-base.hpp:1433-1436 | a well-formed tree with an empty `OptLink` in a reachable node is refused with NotWellFormed |
| Transport.WellFormedTransport | include/tree-base.hpp:181-206 | a renamed copy of a well-formed tree is well-formed from the counterpart of its root |
| RoundTrip.DecodeSlotSim | include/tree-base.hpp:531-545 | reading a written edge rebuilds the skeleton of its subtree: a fresh counterpart per node, registered under the node's number, with every link queued under its target's number |
| RoundTrip.DecodeSlotsSim | include/tree-base.hpp:1027-1037 | reading a written vector rebuilds the counterparts of its elements, in order |
| RoundTrip.DecodeEdgeSim | include/tree-base.hpp:1417-1426 | reading a written field rebuilds its skeleton; a link is empty and queued |
| RoundTrip.DecodeEdgesSim | include/tree-base.hpp:531-545 | reading a node's written fields rebuilds the skeleton of each field |
| RoundTrip.AllRestored | include/tree-base.hpp:143-149 | after `restore_links`, every counterpart is the full renaming of its original: same payload, owned children renamed, and links renamed |
| RoundTrip.RestoreSucceeds | include/tree-base.hpp:143-149 | every number queued while reading a written tree was registered, so `restore_links` succeeds |
| RoundTrip.BuildSim | include/tree-base.hpp:1586-1590 | phase one of reading back a written tree succeeds and rebuilds the skeleton of every reachable node |
| RoundTrip.RoundTrip | include/tree-base.hpp:1554-1594 | `deserialize` of what `serialize` wrote succeeds. Its root is the counterpart of the original root, and every reachable node has a distinct counterpart with the same payload, renamed children and renamed links |
| RoundTrip.RoundTripWellFormed | include/tree-base.hpp:1554-1594 | every well-formed, schema-conforming tree with no empty reachable link can be written and read back |

## Left out

- The binary codec is replaced by record values. For `serialize`, the
  stream version (`include/tree-base.hpp:1554-1563`) holds the logic and
  is modelled by `Serdes.Serialize`. The string version (1568-1573) and
  the file version (1578-1581) only wrap it in I/O, so they are not
  modelled. For `deserialize`, the string version (1586-1594) holds the
  logic and is modelled by `Serdes.Deserialize`. The stream version
  (1599-1604) and the file version (1609-1612) only wrap it.
- Reference counts are not modelled. A node lives while it is a key of the
  heap; `Containers.Expire` releases it explicitly once no owning edge
  holds it.
- `set_raw`, `add_raw` and the constructors and assignments from raw or
  shared pointers only wrap a pointer, so they are not modelled. The
  up-casts and down-casts (`as`, `as_const`, `static_pointer_cast`) are
  left out because types are reduced to a payload.
- The ordering operators of `Maybe` (`include/tree-base.hpp:451-474`)
  compare raw pointer values, which the model does not order.
- `visit`, the annotation store, iterators and `get_vec` are not modelled.
- Exception message texts are not modelled; only the kind of failure is.
- The bodies of generated node classes are not part of this model. Each
  node is a payload plus its fields, decoded through a `Schema` by type
  name. The node-level `copy()` and `clone()` are given the documented
  behaviour: copy shares the children, and clone recurses into owning
  fields and keeps links.
- Validation, writing and cloning in the source recurse without a guard and
  would not terminate on an owning cycle. The model carries the nodes on
  the current path and reports a cycle as NotWellFormed. After a successful
  reachability pass this guard never fires.
- `Copying.CloneWellFormed`: states the shape (payload, field kinds, slot
  fill states, link targets) of the cloned root, the independence of the
  whole clone and its size. It does not state node-by-node structural
  equality below the root.
- `Copying.CloneSlot`: reads the original nodes from one heap and allocates
  into another. In the source they are the same heap; `CloneWellFormed`
  passes the same heap for both.
- The sequence numbers come from a counter in `PointerMaps.Add`. The source
  leaves the numbering unspecified beyond uniqueness, and the proofs use
  only uniqueness.
- `tree-base.cpp` is not part of this model. That file holds the
  `PointerMap` internals, the `IdentifierMap` methods,
  `check_well_formed` and `is_well_formed`. They are modelled from the
  declarations and comments in the header:
  - a failed `PointerMap` lookup and an unresolved number in
    `restore_links` both fail with NotWellFormed;
  - `register_node` overwrites an earlier entry for the same number.
- `as_int` is modelled as reading an integer record; integer width and
  conversions of the codec are not modelled.
- A record tagged with the wrong edge kind fails with RuntimeError
  ("Schema validation failed"), as the code throws at
  `include/tree-base.hpp:535-537`, 1031-1033 and 1422-1424. It is not a
  NotWellFormed failure.
