# helpers_n_wrappers core, in Dafny

This project models the data-structure core of the helpers_n_wrappers
collection of Python helpers and proves properties of it:

- **Container** (`container3.py`): a registry of nodes. Each node is reached
  through lookup keys. A key is either unique, resolving to one node, or
  shared, resolving to a list or set of nodes. There are three indexes: the
  node storage `_nodes`, the forward index `_dict` from key to node or
  collection, and the reverse index `_dict_id2keys` from node to the keys it
  was registered with. `ContainerNode` is the default node.
- **HashTable** (`hashtable.py`): a fixed number of buckets, each a chain of
  `[key, value]` pairs scanned linearly. A separate list keeps the keys in
  insertion order, and a size counter counts the entries.
- **Network helpers** (`network_helper3.py`): parsing the fields of an IPv4
  packet at their fixed offsets (`parse_packet_custom`), and converting
  packed IPv4/IPv6 addresses to integers and back (`ipaddr_to_int`,
  `int_to_ipaddr`).
- **iptables helpers** (`iptc_helper3.py`):
  - the normalisation of rule dictionaries (`_filter_empty_field`);
  - the rule-position arithmetic of `add_rule`, `batch_add_rules` and
    `get_rule`;
  - how `_decode_iptc_rule` omits default fields and groups matches.
- **Text helper** (`utils3.py`): `center_text`.

Files:

- `wrappers.dfy`: Option and Result.
- `container_index.dfy` (module ContainerIndex): the container's indexes as
  values. It defines the functions `AddNode`, `RemoveNode` and
  `UpdateNodeKeys`, the invariants `WellFormed` and `Consistent`, and the
  lemmas about them.
- `container.dfy` (module Container): the classes `Nodes` and `Container`.
  Every mutating method of `Container` is proved to produce exactly the state
  and the failure that the ContainerIndex function describes.
- `hashtable.dfy` (module HashTable): the class `HashTable` over an `array` of
  buckets, with its representation invariant.
- `network.dfy`, `iptc.dfy`, `utils.dfy`: the pure parts, as functions and
  lemmas. The three loops in these parts are methods with loop invariants:
  `_filter_empty_field`, `batch_add_rules`, and the loop over a rule's
  matches in `_decode_iptc_rule`.

Modelling conventions:

- A Python exception is a failure value: `Result.Err`, or a `failure` out-parameter.
- The exception's kind is kept where a caller inspects it. For example,
  `has` and `lookup` swallow only `KeyError`.
- Nodes are handles, standing for `id(node)`.
- The container's hooks `update()` and `delete()` are counted in multisets of
  the `Nodes` object.

## Model

| member | source | states |
|---|---|---|
| ContainerIndex.StorageOf | container3.py:61-72 | the storage discipline is accepted exactly for "list" and "set"; any other name is refused |
| ContainerIndex.Insert | container3.py:64-69 | adding to a list always appends; adding to a set appends only an absent node; either way the node is then present |
| ContainerIndex.Discard | container3.py:65-70 | removing from a collection takes out exactly one occurrence of the node |
| ContainerIndex.AddNode | container3.py:105-121 | re-adding a stored node fails with the duplicate error and changes nothing; otherwise the node is appended and its keys are recorded; a failed registration keeps the storage and reverse index unchanged; well-formedness is preserved |
| ContainerIndex.RemoveNode | container3.py:182-199 | on success the node leaves the reverse index and one occurrence leaves the storage; on failure storage and reverse index are unchanged; well-formedness is preserved |
| ContainerIndex.UpdateNodeKeys | container3.py:210-222 | the storage is never changed; a node with no recorded keys fails exactly with the unknown-node error and changes nothing; on success the reverse index records the new keys |
| ContainerIndex.UnregisterKey | container3.py:90-103 | unregistering one key touches no other key, only removes keys, and keeps every shared collection non-empty and, in a 'set' container, free of repeats |
| ContainerIndex.RegisterKeysPointwise | container3.py:74-86 | registering a list of distinct keys succeeds iff every key could be registered alone; then every other key of the index is untouched and each of the keys holds what registering it alone gives: the node, or its collection with the node inserted |
| ContainerIndex.UnregisterKeysPointwise | container3.py:88-103 | for distinct key names: unregistering succeeds iff every key could be unregistered alone; then other keys are untouched and each of the keys holds what unregistering it alone gives: a unique key is dropped, and the node leaves a shared collection, which is dropped once empty |
| ContainerIndex.AddNodeSucceeds | container3.py:74-86 | adding a fresh node with distinct keys succeeds iff none of its keys is already taken by a unique entry and none of its unique keys is already present |
| ContainerIndex.AddNodeRegisters | container3.py:105-121 | for distinct key names: after a successful add each unique key resolves to the node and each shared key to a collection holding it; the other keys are unchanged and the reverse index records the keys |
| ContainerIndex.AddNodeConsistent | container3.py:105-121 | for distinct key names: a successful add keeps the three indexes mutually consistent |
| ContainerIndex.RemoveNodeConsistent | container3.py:182-199 | removing a registered node under its recorded keys succeeds, keeps the indexes consistent and leaves no trace of the node |
| ContainerIndex.UpdateNodeKeysConsistent | container3.py:210-222 | for distinct new key names: a successful key update keeps the indexes consistent |
| ContainerIndex.UpdateNodeKeysUnregistersRecorded | container3.py:210-222 | updatekeys first unregisters the recorded keys, which always succeeds and unbinds the node, and then registers the new keys |
| ContainerIndex.RegisterUnregister | container3.py:74-103 | for distinct key names: unregistering the keys just registered restores the forward index exactly |
| ContainerIndex.AddRemoveRoundTrip | container3.py:105-121 | for a consistent container and distinct key names: add followed by remove of the same node with the same keys restores the whole state |
| ContainerIndex.RepeatedSharedName | container3.py:74-103 | in a 'set' container a node declaring the same shared name twice is added, but removing it under those keys fails with KeyError: the first discard deletes the emptied collection |
| ContainerIndex.RegisterKeysBlocked | container3.py:82-83 | a key already held by a unique entry makes registration fail and keeps that entry |
| ContainerIndex.RegisterKeysPrefix | container3.py:75-86 | a failed registration leaves exactly the keys before the failing one registered (partial registration, no rollback) |
| ContainerIndex.AddNodeConflict | container3.py:108-121 | adding a node one of whose keys is held by a unique entry fails, keeps that entry and leaves the earlier keys registered |
| ContainerIndex.StaleRemoveUnbinds | container3.py:188-192 | removing an unrecorded node still unbinds its unique keys before failing with the unknown-node error |
| ContainerIndex.RemoveEach | container3.py:201-204 | removing nodes one by one never breaks well-formedness, and on success shrinks the storage by the number removed |
| ContainerIndex.RemoveEachClean | container3.py:201-208 | in a consistent container whose nodes still answer their recorded keys, removing every stored node succeeds and empties all three indexes |
| ContainerIndex.ConsistentCount | container3.py:224-226 | in a consistent container the storage size equals the number of recorded nodes |
| ContainerIndex.TwoUniqueNodes | container3.py:275-282 | adding two nodes with different unique keys to an empty container succeeds, counts two, and removing all of them empties it |
| Container.Nodes.NewContainerNode | container3.py:237-247 | a new ContainerNode answers one unique key, its name, and has not expired |
| Container.Nodes.Update | container3.py:253-257 | the node's update hook is counted once |
| Container.Nodes.Delete | container3.py:259-263 | the node's delete hook is counted once |
| Container.Container.constructor | container3.py:47-72 | a new container is empty in all three indexes and keeps its storage discipline |
| Container.Container.New | container3.py:47-72 | construction succeeds exactly for the kinds "list" and "set", giving an empty container with that discipline; any other kind is refused |
| Container.Container.AddLookupKeys | container3.py:74-86 | the forward index and failure after registering are those of ContainerIndex.RegisterKeys |
| Container.Container.RemoveLookupKeys | container3.py:88-103 | the forward index and failure after unregistering are those of ContainerIndex.UnregisterKeys |
| Container.Container.Add | container3.py:105-121 | the new state and the failure are those of ContainerIndex.AddNode; the invariant is kept |
| Container.Container.Get | container3.py:123-134 | succeeds iff the key is registered, returning its entry; otherwise fails with KeyError for the key; the update hook runs once when asked for on a node |
| Container.Container.GetAll | container3.py:136-140 | returns the stored nodes, without repetition |
| Container.Container.Remove | container3.py:182-199 | the new state and the failure are those of ContainerIndex.RemoveNode; the delete hook runs once on success when callback is set |
| Container.Container.Has | container3.py:142-159 | an absent key, a shared key, or a live node answers presence and changes nothing; an expired node is removed and answers false, a KeyError from that removal is swallowed and any other failure escapes |
| Container.Container.Lookup | container3.py:161-180 | an absent key gives None; a shared collection is returned; a live node is returned and updated if asked; an expired node is removed, then still updated and returned, or None after a swallowed KeyError |
| Container.Container.RemoveEachOf | container3.py:203-204 | removing each of a sequence of nodes ends in ContainerIndex.RemoveEach's state and failure; with callback set the delete hook has run exactly for the nodes that left the storage, also when a removal fails, and on success for every node of the sequence |
| Container.Container.RemoveAll | container3.py:201-208 | removing every stored node fails as ContainerIndex.RemoveEach does, and otherwise leaves all three indexes empty, each delete hook having run once; after a failure with callback set, the delete hook has run exactly for the nodes removed before it |
| Container.Container.UpdateKeys | container3.py:210-222 | the new state and the failure are those of ContainerIndex.UpdateNodeKeys |
| Container.Container.Length | container3.py:224-226 | the length is the number of stored nodes, which are distinct, and equals the number of recorded nodes when the indexes are consistent |
| Container.Demo | container3.py:275-282 | the demo's two adds and removeall succeed and the container ends empty |
| HashTable.RemoveFirst | hashtable.py:100 | `list.remove` drops one occurrence: one element fewer, and every other element is kept |
| HashTable.RemoveFirstAt | hashtable.py:100 | the first occurrence of an element is the one removed |
| HashTable.RemoveFirstNoRepeats | hashtable.py:100 | removing a key from a repetition-free key list leaves it repetition-free and without the key |
| HashTable.HashTable.constructor | hashtable.py:42-51 | a new table has the requested number of buckets, all empty, no keys and size 0 |
| HashTable.HashTable.Index | hashtable.py:53-54 | the bucket index of a key is in range |
| HashTable.HashTable.LookupByKey | hashtable.py:56-66 | looks in the key's bucket and finds a position iff the key is stored, the position holding the key and its value |
| HashTable.HashTable.Add | hashtable.py:68-82 | an existing key without overwrite raises KeyExists and changes nothing; an existing key with overwrite changes its value in place; a new key is appended to its bucket and to the key order and the size grows by one; other buckets are untouched |
| HashTable.HashTable.OverwriteInv | hashtable.py:74-76 | overwriting a pair in place keeps the table invariant |
| HashTable.HashTable.AppendInv | hashtable.py:77-81 | appending a new pair, key and count keeps the table invariant |
| HashTable.HashTable.DropInv | hashtable.py:99-101 | deleting a pair, its key and one count keeps the table invariant |
| HashTable.HashTable.Get | hashtable.py:84-90 | returns the stored value iff the key is present, otherwise raises KeyNotFound |
| HashTable.HashTable.Remove | hashtable.py:92-102 | an absent key raises KeyNotFound and changes nothing; otherwise the value is returned, the pair leaves its bucket, the key leaves the key order and the size drops by one |
| HashTable.HashTable.Keys | hashtable.py:114-115 | the keys in insertion order, without repetition, exactly the stored keys |
| HashTable.HashTable.SetItem | hashtable.py:117-118 | assignment stores the value, appending the key to the order only when it is new |
| HashTable.HashTable.GetItem | hashtable.py:120-121 | indexing returns the stored value iff the key is present |
| HashTable.HashTable.DelItem | hashtable.py:123-124 | deletion returns the value and drops the key iff it is present |
| HashTable.HashTable.Length | hashtable.py:126-127 | the length is the number of keys, of pairs in all buckets and of stored entries |
| HashTable.HashTable.LengthIsCount | hashtable.py:126-127 | the number of stored entries equals the number of keys in the order list |
| HashTable.Demo | hashtable.py:133-154 | with 2 buckets, three adds and an assignment leave 4 entries and the assignment to "three" is read back; two removals leave 2 and the keys ["one", "four"]; re-adding "one" without overwrite raises KeyExists and "one" keeps the value 1 |
| Network.Unpack | network_helper3.py:72-92 | a `struct.unpack` field read succeeds iff it lies within the packet, and its value fits its width |
| Network.HeaderLength | network_helper3.py:78 | the IPv4 header length is a multiple of 4 and at most 60 |
| Network.ParsePacketCustom | network_helper3.py:71-93 | packets shorter than 16 or 20 bytes fail on the address conversions; a parsed packet carries the TTL, protocol and both addresses from their offsets |
| Network.ParseSucceeds | network_helper3.py:71-93 | parsing succeeds iff there are 20 bytes and the transport header of ICMP, TCP, UDP or SCTP fits after the IP header |
| Network.ParsedFields | network_helper3.py:72-92 | the protocol selects the transport record; ports, ICMP type and code, TCP flags and the SCTP tag are read big-endian at their offsets past the header |
| Network.DecodeEncode | network_helper3.py:109-132 | reading back the big-endian encoding of an integer gives the integer |
| Network.EncodeDecode | network_helper3.py:109-132 | encoding the big-endian value of bytes gives the bytes |
| Network.IpaddrToInt | network_helper3.py:109-119 | converts an IPv4 or IPv6 packed address, the IPv4 result below 2^32; any other family raises |
| Network.IntToIpaddr | network_helper3.py:121-132 | packs to 4 or 16 bytes; an IPv4 integer is accepted iff it is below 2^32; any other family raises |
| Network.Ipv6IsBigEndian | network_helper3.py:113-116 | combining the two 64-bit halves is the 128-bit big-endian value |
| Network.IpaddrToIntBound | network_helper3.py:109-116 | the integer of a packed address is below 256 to the power of its length |
| Network.IntToIpv6Range | network_helper3.py:125-129 | IPv6 packing succeeds iff the integer is in [0, 2^128); otherwise the high half is out of range |
| Network.IntRoundTrip | network_helper3.py:109-132 | an integer in range packs and reads back to itself |
| Network.PackedRoundTrip | network_helper3.py:109-132 | a packed address reads to an integer that packs back to the same bytes |
| Iptc.FilteredFields | iptc_helper3.py:506-515 | normalisation keeps every key and normalises each value |
| Iptc.FilterEmptyField | iptc_helper3.py:498-515 | the loop computes FilteredFields of its input |
| Iptc.FilterEmptyList | iptc_helper3.py:513-514 | an empty list becomes the empty string |
| Iptc.FilterSingleton | iptc_helper3.py:511-512 | a one-element list becomes its element, normalised when it is a dictionary |
| Iptc.FilterLongList | iptc_helper3.py:507-510 | a longer list keeps its length; its non-dictionary items are unchanged and its dictionaries keep their keys |
| Iptc.FilterFixpoints | iptc_helper3.py:506-515 | a value is left unchanged iff it has no empty list, no singleton list and no dictionary that would change |
| Iptc.FilterNotIdempotent | iptc_helper3.py:506-515 | one pass does not always reach a fixpoint: a list nested in a singleton list is unwrapped one level per pass |
| Iptc.AddRule | iptc_helper3.py:108-121 | position 0 appends, 1..n+1 inserts before that rule, -n..-1 counts from the end; others fail; the result has one more rule and the same rules otherwise |
| Iptc.RuleAt | iptc_helper3.py:155-168 | a positive position is 1-based, a negative one counts from the end; out of range fails with an index error |
| Iptc.AddThenGet | iptc_helper3.py:108-171 | after inserting at position p, get_rule at p finds the rule for positive p, and at p-1 for negative p |
| Iptc.AddKeepsOrder | iptc_helper3.py:108-121 | insertion places the rule at its index and shifts the rules after it, keeping their order |
| Iptc.BatchAddRules | iptc_helper3.py:312-328 | the loop over the batch computes BatchAdded, which never adds or drops a chain |
| Iptc.BatchAppends | iptc_helper3.py:318-327 | a batch of position-0 rules for one chain appends them, in order, to that chain |
| Iptc.BaseFields | iptc_helper3.py:428-443 | src, dst and protocol are present iff they differ from the defaults; interfaces iff set; fragment only for IPv4 and only when set |
| Iptc.GroupedCollects | iptc_helper3.py:444-450 | a match name maps to its one parameter dictionary, or to the list of all of them when repeated |
| Iptc.GroupedKeys | iptc_helper3.py:444-450 | grouping adds exactly the match names to the dictionary's keys |
| Iptc.GroupedKeepsOthers | iptc_helper3.py:444-450 | a key no match is named after keeps its value |
| Iptc.Underscored | iptc_helper3.py:452 | every '-' of the target name becomes '_' and nothing else changes |
| Iptc.WithTarget | iptc_helper3.py:451-455 | a named target with parameters stores them under its underscored name at "target", a named target without parameters stores its bare name; nothing else changes; no target or an unnamed one adds nothing |
| Iptc.DecodeIptcRule | iptc_helper3.py:425-457 | the method computes Decoded of the rule |
| Iptc.DecodedOmitsDefaults | iptc_helper3.py:428-457 | in the decoded rule, default address, protocol, interfaces and fragment are absent and the others keep their text |
| Iptc.DecodedKeepsField | iptc_helper3.py:428-457 | a base field survives decoding iff it was emitted, with its text value |
| Iptc.DecodedMatches | iptc_helper3.py:444-457 | a match name is present iff some match has it, with its normalised parameters or the normalised list of them |
| Iptc.GetRule | iptc_helper3.py:153-171 | position 0 gives the decoded dictionary of every rule, in order; another position gives the decoded rule there; out of range raises unless silent |
| Utils.SliceTo | utils3.py:46 | Python `s[:n]`: a prefix, of length n, or of the length without the last -n when n is negative |
| Utils.SliceFrom | utils3.py:46 | Python `s[m:]`: a suffix, of length -m for negative m, otherwise without the first m |
| Utils.HalfTowardZero | utils3.py:44 | `int(gap / 2)` truncates toward zero for both signs |
| Utils.CenterText | utils3.py:41-46 | the result is at least two longer than the text |
| Utils.PadsBalanced | utils3.py:43-45 | when the text fits, the two baseline pieces differ by at most one (the right one longer) and add up to the gap |
| Utils.CenteredOverBaseline | utils3.py:41-46 | when there is room, the result has the baseline's length, keeps its left and right ends and shows " text " in between |
| Utils.NoRoomAppendsBaseline | utils3.py:41-46 | with a zero gap the whole baseline follows the framed text |
| Utils.AlwaysFramed | utils3.py:41-46 | the result is always a prefix of the baseline, " text ", and a suffix of the baseline |
| Utils.TooLongExample | utils3.py:41-46 | a text longer than the baseline makes the two pieces overlap: "abc" with "xyz" gives "ab xyz bc" |

## Left out

- Logging (`self._logger`), `dump`, `__repr__` and the `print` calls of the demos produce text only.
- `id(node)` and `isinstance` are modelled by handles and the `Entry` datatype (`Single` for a node, `Shared` for a collection).
- Python `set` iteration order is arbitrary. The model keeps insertion order, which is one admissible order.
- The `update()` and `delete()` hooks of nodes are counted, not run. A subclass whose hook mutates the container is not modelled.
- ContainerIndex.AddNodeConsistent: needs the node's key names to be distinct. A node whose `lookupkeys()` repeats a name is outside the proved invariant, though the operations still model it.
- ContainerIndex.AddNodeRegisters: proved only for distinct key names; a node whose key names repeat is outside it, as for AddNodeConsistent.
- ContainerIndex.UpdateNodeKeysConsistent: proved only for distinct new key names, for the reason given for AddNodeConsistent.
- ContainerIndex.UnregisterKeysPointwise: proved only for distinct key names. With a repeated name the second unregistration sees the first one's result, so it is not pointwise.
- ContainerIndex.RegisterUnregister: proved only for distinct key names. ContainerIndex.RepeatedSharedName shows that the undo fails for a repeated shared name in a 'set' container.
- ContainerIndex.AddRemoveRoundTrip: proved only for distinct key names. ContainerIndex.RepeatedSharedName is a counterexample otherwise: keys [(k, shared), (k, shared)] in a 'set' container are added, but removal under them raises KeyError for k.
- Container.Container.AddLookupKeys: the collection made by `gen_datatype()` is inserted in the same update that creates the key.
- HashTable: `hash()` is a parameter of the constructor. A key whose hashing raises is not modelled.
- HashTable: a bucket count of 0 or less is the `NoBuckets` error. Python would raise ZeroDivisionError or IndexError at the first operation.
- HashTable.HashTable.Keys returns a copy of the key order. Python returns the internal list, so aliasing through it is not modelled.
- Network: the text forms of addresses (`inet_ntoa`, `inet_pton`, `inet_ntop`) are left abstract. Addresses are the packed bytes these calls consume or produce.
- Network.IpaddrToInt requires a packed address of the family's length. `inet_pton` guarantees that length in the source.
- Network: `is_ipv4`, `is_ipv6`, the scapy-based parsers and everything else in network_helper3.py beyond the three functions are not part of this model.
- Iptc: python-iptc and libiptc (the netfilter tables, chain lookup, commits and `_encode_iptc_rule`) are foreign code. A chain is the sequence of its rules.
- Iptc: the rule record is abstract. Its fields are the texts `_decode_iptc_rule` reads.
- Iptc.AddRule: an insertion index outside the chain is refused by libiptc. The model's `InsertOutOfRange` error stands for that refusal.
- Iptc.FilterEmptyField works on a value. The source rewrites the dictionary in place, and that aliasing is not modelled.
- Utils.HalfTowardZero: uses exact integer division. For gaps beyond 2^53 Python's float division `gap/2` loses precision; that case is not modelled.
- The remaining modules (asyncio_helper3.py, aiohttp_client.py, iproute2_helper3.py, nfqueue3.py and the rest of utils3.py) are not part of this model.

Behaviour of the code that the model keeps:

- Container.remove of a node that was never added first unregisters that node's current keys and only then raises KeyError on the reverse index. It does not fail cleanly (ContainerIndex.StaleRemoveUnbinds).
- Container.updatekeys with a conflicting key leaves the node in storage without a reverse-index entry. There is no rollback.
- `HashTable.__init__` (hashtable.py:42-51) does not check that the bucket count is positive; the model's `NoBuckets` error stands for the later ZeroDivisionError or IndexError.
