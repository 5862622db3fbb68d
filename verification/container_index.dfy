/**
 * The indexes of container3.py as values: how `_add_lookupkeys` and
 * `_remove_lookupkeys` change the forward index `_dict`, and how `add`,
 * `remove` and `updatekeys` change all three structures (`_nodes`, `_dict`,
 * `_dict_id2keys`). The class in module Container is proved against these
 * functions; the lemmas here say what the functions guarantee.
 */
module ContainerIndex {
  import opened Wrappers

  /** A node, identified by a handle where the source uses `id(node)`. */
  type Handle = nat

  /** One element of `node.lookupkeys()`: a key and whether it is unique. */
  datatype LookupKey<K> = LookupKey(key: K, unique: bool)

  /** The `datatype` argument of `Container.__init__`. */
  datatype Storage = ListStorage | SetStorage

  /**
   * A value of `_dict`: the node bound to a unique key, or the collection of
   * the nodes that share a key (the source tells them apart with isinstance).
   */
  datatype Entry = Single(node: Handle) | Shared(members: seq<Handle>)

  /** The exceptions the container raises, by cause. */
  datatype Error<K> =
    | UnsupportedDatatype                               // Exception from __init__
    | DuplicateNode(node: Handle)                       // Exception from add
    | KeyConflict(key: K)                               // KeyError: unique key already in _dict
    | KeyNotFound(key: K)                               // KeyError: key absent from _dict
    | UnknownNode(node: Handle)                         // KeyError: no _dict_id2keys entry
    | NotAMember(key: K, node: Handle, storage: Storage) // remove() of a node the collection lacks
    | NotACollection(key: K)                            // AttributeError: unique binding used as a collection
  {
    /** Whether Python raises this as a KeyError, which `has` and `lookup` catch. */
    predicate IsKeyError() {
      // list.remove raises ValueError, set.remove raises KeyError
      KeyConflict? || KeyNotFound? || UnknownNode? || (NotAMember? && storage.SetStorage?)
    }
  }

  /** `Container.__init__` accepts exactly the datatypes 'list' and 'set'. */
  function StorageOf(name: string): (r: Option<Storage>)
    ensures r.Some? <==> name == "list" || name == "set"
    ensures r == Some(ListStorage) <==> name == "list"
  {
    if name == "list" then Some(ListStorage)
    else if name == "set" then Some(SetStorage)
    else None
  }

  /** No handle occurs twice. */
  ghost predicate Distinct(c: seq<Handle>) {
    forall h :: multiset(c)[h] <= 1
  }

  /** `_add_datatype`: list.append, or set.add which ignores a present element. */
  function Insert(s: Storage, c: seq<Handle>, h: Handle): (r: seq<Handle>)
    ensures h in r
    ensures s.ListStorage? || h !in c ==> r == c + [h]
    ensures s.SetStorage? && h in c ==> r == c
  {
    if s.SetStorage? && h in c then c else c + [h]
  }

  /** `_remove_datatype` on a collection holding h: drops its first occurrence. */
  function Discard(c: seq<Handle>, h: Handle): (r: seq<Handle>)
    requires h in c
    ensures multiset(r) == multiset(c) - multiset{h}
    ensures |r| == |c| - 1
  {
    assert c == [c[0]] + c[1..];
    if c[0] == h then c[1..] else [c[0]] + Discard(c[1..], h)
  }

  /** Appending a handle the collection lacks keeps it free of repeats. */
  lemma DistinctAppend(c: seq<Handle>, h: Handle)
    requires h !in c
    ensures Distinct(c) ==> Distinct(c + [h])
  {
    assert multiset(c + [h]) == multiset(c) + multiset{h};
    if Distinct(c) {
      forall x ensures multiset(c + [h])[x] <= 1 {
        assert multiset(c)[x] <= 1;
      }
    }
  }

  /** Discarding what was just appended gives back the collection. */
  lemma {:induction false} DiscardAppended(c: seq<Handle>, h: Handle)
    requires h !in c
    ensures Discard(c + [h], h) == c
  {
    if c != [] {
      assert (c + [h])[1..] == c[1..] + [h];
      DiscardAppended(c[1..], h);
      assert [c[0]] + c[1..] == c;
    }
  }

  /** The keys a sequence of lookup keys names. */
  function Names<K>(keys: seq<LookupKey<K>>): set<K> {
    set lk | lk in keys :: lk.key
  }

  /** A node declares each key name at most once. */
  ghost predicate DistinctKeys<K>(keys: seq<LookupKey<K>>) {
    forall i, j :: 0 <= i < j < |keys| ==> keys[i].key != keys[j].key
  }

  /** One iteration of the loop in `_add_lookupkeys`. */
  function RegisterKey<K>(s: Storage, d: map<K, Entry>, h: Handle, lk: LookupKey<K>): (r: Result<map<K, Entry>, Error<K>>)
    ensures r.Ok? ==> r.value.Keys == d.Keys + {lk.key}
    ensures r.Ok? ==> forall k :: k in d && k != lk.key ==> r.value[k] == d[k]
  {
    if !lk.unique then
      if lk.key !in d then Ok(d[lk.key := Shared([h])])
      else if d[lk.key].Shared? then Ok(d[lk.key := Shared(Insert(s, d[lk.key].members, h))])
      else Err(NotACollection(lk.key))
    else if lk.key in d then Err(KeyConflict(lk.key))
    else Ok(d[lk.key := Single(h)])
  }

  /** One iteration of the loop in `_remove_lookupkeys`. */
  function UnregisterKey<K>(s: Storage, d: map<K, Entry>, h: Handle, lk: LookupKey<K>): (r: Result<map<K, Entry>, Error<K>>)
    ensures r.Ok? ==> r.value.Keys <= d.Keys && d.Keys - {lk.key} <= r.value.Keys
    ensures r.Ok? ==> forall k :: k in r.value && k != lk.key ==> r.value[k] == d[k]
    ensures r.Ok? && IndexWellFormed(s, d) ==> IndexWellFormed(s, r.value)
  {
    if lk.key !in d then Err(KeyNotFound(lk.key))
    else if lk.unique then Ok(d - {lk.key})
    else if d[lk.key].Single? then Err(NotACollection(lk.key))
    else if h !in d[lk.key].members then Err(NotAMember(lk.key, h, s))
    else
      DiscardKeepsDistinct(d[lk.key].members, h);
      var rest := Discard(d[lk.key].members, h);
      if |rest| == 0 then Ok(d - {lk.key}) else Ok(d[lk.key := Shared(rest)])
  }

  /** The index after a key loop, and the exception that stopped it, if any. */
  datatype Step<K> = Step(dict: map<K, Entry>, failure: Option<Error<K>>)

  /** Every shared collection is non-empty, and under 'set' has no repeats. */
  ghost predicate IndexWellFormed<K>(s: Storage, d: map<K, Entry>) {
    forall k :: k in d && d[k].Shared? ==>
      |d[k].members| > 0 && (s.SetStorage? ==> Distinct(d[k].members))
  }

  /**
   * `_add_lookupkeys`: registers the keys in order and stops at the first
   * exception, keeping what the earlier keys registered.
   */
  function RegisterKeys<K>(s: Storage, d: map<K, Entry>, h: Handle, keys: seq<LookupKey<K>>): (r: Step<K>)
    ensures IndexWellFormed(s, d) ==> IndexWellFormed(s, r.dict)
    decreases |keys|
  {
    if |keys| == 0 then Step(d, None)
    else
      match RegisterKey(s, d, h, keys[0])
      case Err(e) => Step(d, Some(e))
      case Ok(d1) => RegisterKeys(s, d1, h, keys[1..])
  }

  /** `_remove_lookupkeys`: unregisters the keys in order, stopping at the first exception. */
  function UnregisterKeys<K>(s: Storage, d: map<K, Entry>, h: Handle, keys: seq<LookupKey<K>>): (r: Step<K>)
    ensures IndexWellFormed(s, d) ==> IndexWellFormed(s, r.dict)
    decreases |keys|
  {
    if |keys| == 0 then Step(d, None)
    else
      match UnregisterKey(s, d, h, keys[0])
      case Err(e) => Step(d, Some(e))
      case Ok(d1) => UnregisterKeys(s, d1, h, keys[1..])
  }

  /** The three structures of a Container: `_nodes`, `_dict` and `_dict_id2keys`. */
  datatype State<K> = State(nodes: seq<Handle>, dict: map<K, Entry>, id2keys: map<Handle, seq<LookupKey<K>>>)

  /** The state after an operation, and the exception it raised, if any. */
  datatype Outcome<K> = Outcome(state: State<K>, failure: Option<Error<K>>)

  /**
   * What every operation keeps, on its error paths too: storage has no
   * repeats, every `_dict_id2keys` entry belongs to a stored node, and the
   * shared collections are well formed.
   */
  ghost predicate WellFormed<K>(s: Storage, st: State<K>) {
    && Distinct(st.nodes)
    && (forall h :: h in st.id2keys ==> h in st.nodes)
    && IndexWellFormed(s, st.dict)
  }

  /** `add(node)`, where keys is what `node.lookupkeys()` returns. */
  function AddNode<K>(s: Storage, st: State<K>, h: Handle, keys: seq<LookupKey<K>>): (r: Outcome<K>)
    ensures WellFormed(s, st) ==> WellFormed(s, r.state)
    ensures h in st.nodes <==> r.failure == Some(DuplicateNode(h))
    ensures h in st.nodes ==> r.state == st
    ensures r.failure.Some? ==> r.state.nodes == st.nodes && r.state.id2keys == st.id2keys
    ensures r.failure.None? ==> r.state.nodes == st.nodes + [h] && r.state.id2keys == st.id2keys[h := keys]
  {
    if h in st.nodes then Outcome(st, Some(DuplicateNode(h)))
    else
      var reg := RegisterKeys(s, st.dict, h, keys);
      if reg.failure.Some? then
        RegisterKeysNeverDuplicate(s, st.dict, h, keys);
        Outcome(st.(dict := reg.dict), reg.failure)
      else
        DistinctAppend(st.nodes, h);
        Outcome(State(st.nodes + [h], reg.dict, st.id2keys[h := keys]), None)
  }

  /** The key loops never raise the duplicate-node exception of `add`. */
  lemma {:induction false} RegisterKeysNeverDuplicate<K>(s: Storage, d: map<K, Entry>, h: Handle, keys: seq<LookupKey<K>>)
    ensures RegisterKeys(s, d, h, keys).failure != Some(DuplicateNode(h))
    decreases |keys|
  {
    if |keys| > 0 {
      match RegisterKey(s, d, h, keys[0])
      case Err(e) =>
      case Ok(d1) => RegisterKeysNeverDuplicate(s, d1, h, keys[1..]);
    }
  }

  /**
   * `remove(node)`, where keys is what `node.lookupkeys()` returns now: the
   * keys are unregistered first, then the `_dict_id2keys` entry and the
   * stored node are dropped.
   */
  function RemoveNode<K>(s: Storage, st: State<K>, h: Handle, keys: seq<LookupKey<K>>): (r: Outcome<K>)
    requires WellFormed(s, st)
    ensures WellFormed(s, r.state)
    ensures r.failure.Some? ==> r.state.nodes == st.nodes && r.state.id2keys == st.id2keys
    ensures r.failure.None? ==> h in st.id2keys && r.state.id2keys == st.id2keys - {h}
    ensures r.failure.None? ==> h in st.nodes && multiset(r.state.nodes) == multiset(st.nodes) - multiset{h}
  {
    var unreg := UnregisterKeys(s, st.dict, h, keys);
    if unreg.failure.Some? then Outcome(st.(dict := unreg.dict), unreg.failure)
    else if h !in st.id2keys then Outcome(st.(dict := unreg.dict), Some(UnknownNode(h)))
    else
      var rest := Discard(st.nodes, h);
      assert forall x :: x in st.id2keys - {h} ==> x in rest by {
        forall x | x in st.id2keys - {h} ensures x in rest {
          assert multiset(rest)[x] == multiset(st.nodes)[x];
        }
      }
      Outcome(State(rest, unreg.dict, st.id2keys - {h}), None)
  }

  /**
   * `updatekeys(node)`: unregisters the recorded keys, then registers keys,
   * what `node.lookupkeys()` returns now; storage is never touched.
   */
  function UpdateNodeKeys<K>(s: Storage, st: State<K>, h: Handle, keys: seq<LookupKey<K>>): (r: Outcome<K>)
    ensures WellFormed(s, st) ==> WellFormed(s, r.state)
    ensures r.state.nodes == st.nodes
    ensures h !in st.id2keys <==> r.failure == Some(UnknownNode(h))
    ensures h !in st.id2keys ==> r.state == st
    ensures r.failure.None? ==> r.state.id2keys == st.id2keys[h := keys]
  {
    if h !in st.id2keys then Outcome(st, Some(UnknownNode(h)))
    else
      var unreg := UnregisterKeys(s, st.dict, h, st.id2keys[h]);
      if unreg.failure.Some? then
        UnregisterKeysNeverUnknown(s, st.dict, h, st.id2keys[h]);
        Outcome(st.(dict := unreg.dict), unreg.failure)
      else
        var reg := RegisterKeys(s, unreg.dict, h, keys);
        if reg.failure.Some? then
          RegisterKeysNeverUnknown(s, unreg.dict, h, keys);
          Outcome(State(st.nodes, reg.dict, st.id2keys - {h}), reg.failure)
        else Outcome(State(st.nodes, reg.dict, st.id2keys[h := keys]), None)
  }

  /** The key loops never raise the unknown-node exception. */
  lemma {:induction false} UnregisterKeysNeverUnknown<K>(s: Storage, d: map<K, Entry>, h: Handle, keys: seq<LookupKey<K>>)
    ensures UnregisterKeys(s, d, h, keys).failure != Some(UnknownNode(h))
    decreases |keys|
  {
    if |keys| > 0 {
      match UnregisterKey(s, d, h, keys[0])
      case Err(e) =>
      case Ok(d1) => UnregisterKeysNeverUnknown(s, d1, h, keys[1..]);
    }
  }

  lemma {:induction false} RegisterKeysNeverUnknown<K>(s: Storage, d: map<K, Entry>, h: Handle, keys: seq<LookupKey<K>>)
    ensures RegisterKeys(s, d, h, keys).failure != Some(UnknownNode(h))
    decreases |keys|
  {
    if |keys| > 0 {
      match RegisterKey(s, d, h, keys[0])
      case Err(e) =>
      case Ok(d1) => RegisterKeysNeverUnknown(s, d1, h, keys[1..]);
    }
  }

  // ---------------------------------------------------------------------
  // The three indexes agree with each other

  /** Whether entry e resolves to node h. */
  predicate Holds(e: Entry, h: Handle) {
    if e.Single? then e.node == h else h in e.members
  }

  /** lk is registered for h in d. */
  ghost predicate Bound<K>(d: map<K, Entry>, lk: LookupKey<K>, h: Handle) {
    && lk.key in d
    && if lk.unique then d[lk.key] == Single(h) else d[lk.key].Shared? && h in d[lk.key].members
  }

  /** Every shared collection is non-empty and holds each node once. */
  ghost predicate CollectionsDistinct<K>(d: map<K, Entry>) {
    forall k :: k in d && d[k].Shared? ==> |d[k].members| > 0 && Distinct(d[k].members)
  }

  /** Every node an entry resolves to records that key, with its kind. */
  ghost predicate ResolvedRecorded<K>(d: map<K, Entry>, ids: map<Handle, seq<LookupKey<K>>>) {
    forall k, h :: k in d && Holds(d[k], h) ==> h in ids && LookupKey(k, d[k].Single?) in ids[h]
  }

  /** Every recorded key resolves to its node. */
  ghost predicate RecordedResolved<K>(d: map<K, Entry>, ids: map<Handle, seq<LookupKey<K>>>) {
    forall h, i :: h in ids && 0 <= i < |ids[h]| ==> Bound(d, ids[h][i], h)
  }

  /** No node records a key name twice. */
  ghost predicate RecordsDistinct<K>(ids: map<Handle, seq<LookupKey<K>>>) {
    forall h :: h in ids ==> DistinctKeys(ids[h])
  }

  /** The forward index d and the reverse index ids describe each other. */
  ghost predicate Linked<K>(d: map<K, Entry>, ids: map<Handle, seq<LookupKey<K>>>) {
    && CollectionsDistinct(d)
    && ResolvedRecorded(d, ids)
    && RecordedResolved(d, ids)
    && RecordsDistinct(ids)
  }

  /** No entry of d resolves to h. */
  ghost predicate Unheld<K>(d: map<K, Entry>, h: Handle) {
    forall k :: k in d ==> !Holds(d[k], h)
  }

  /**
   * The invariant the container is designed to keep: every stored node has
   * exactly one `_dict_id2keys` entry, and `_dict` holds exactly the keys
   * recorded there.
   */
  ghost predicate Consistent<K>(s: Storage, st: State<K>) {
    && WellFormed(s, st)
    && (forall h :: h in st.nodes ==> h in st.id2keys)
    && Linked(st.dict, st.id2keys)
  }

  /** r agrees with d on every key that keys does not name. */
  ghost predicate SameOutside<K>(r: map<K, Entry>, d: map<K, Entry>, keys: seq<LookupKey<K>>) {
    && (forall k :: k in r && k !in Names(keys) ==> k in d && r[k] == d[k])
    && (forall k :: k in d && k !in Names(keys) ==> k in r)
  }

  /** At each key of keys, r holds what registering that key alone into d gives. */
  ghost predicate RegisteredAlone<K>(s: Storage, r: map<K, Entry>, d: map<K, Entry>, h: Handle, keys: seq<LookupKey<K>>) {
    forall lk :: lk in keys ==>
      RegisterKey(s, d, h, lk).Ok? && lk.key in r && r[lk.key] == RegisterKey(s, d, h, lk).value[lk.key]
  }

  /** At each key of keys, r holds what unregistering that key alone from d gives. */
  ghost predicate UnregisteredAlone<K>(s: Storage, r: map<K, Entry>, d: map<K, Entry>, h: Handle, keys: seq<LookupKey<K>>) {
    forall lk :: lk in keys ==>
      && UnregisterKey(s, d, h, lk).Ok?
      && (lk.key in r <==> lk.key in UnregisterKey(s, d, h, lk).value)
      && (lk.key in r ==> r[lk.key] == UnregisterKey(s, d, h, lk).value[lk.key])
  }

  /** Splitting off the first lookup key of a sequence with distinct names. */
  lemma SplitKeys<K>(keys: seq<LookupKey<K>>)
    requires |keys| > 0 && DistinctKeys(keys)
    ensures DistinctKeys(keys[1..])
    ensures Names(keys) == {keys[0].key} + Names(keys[1..])
    ensures keys[0].key !in Names(keys[1..])
    ensures forall lk :: lk in keys <==> lk == keys[0] || lk in keys[1..]
  {
    assert keys == [keys[0]] + keys[1..];
    forall lk | lk in keys[1..] ensures lk.key != keys[0].key {
      var j :| 0 <= j < |keys[1..]| && keys[1..][j] == lk;
      assert keys[j + 1] == lk;
    }
  }

  /**
   * With distinct key names the registration loop acts key by key: it
   * succeeds exactly when each key could be registered on its own, and then
   * every key holds what registering it alone gives, and nothing else changes.
   */
  lemma {:induction false} RegisterKeysPointwise<K>(s: Storage, d: map<K, Entry>, h: Handle, keys: seq<LookupKey<K>>)
    requires DistinctKeys(keys)
    ensures RegisterKeys(s, d, h, keys).failure.None? <==> forall lk :: lk in keys ==> RegisterKey(s, d, h, lk).Ok?
    ensures RegisterKeys(s, d, h, keys).failure.None? ==>
      && SameOutside(RegisterKeys(s, d, h, keys).dict, d, keys)
      && RegisteredAlone(s, RegisterKeys(s, d, h, keys).dict, d, h, keys)
    decreases |keys|
  {
    if |keys| > 0 {
      var lk0, rest := keys[0], keys[1..];
      SplitKeys(keys);
      var first := RegisterKey(s, d, h, lk0);
      if first.Ok? {
        var d1 := first.value;
        var r := RegisterKeys(s, d1, h, rest);
        assert RegisterKeys(s, d, h, keys) == r;
        RegisterKeysPointwise(s, d1, h, rest);
        forall lk | lk in rest
          ensures RegisterKey(s, d1, h, lk).Ok? == RegisterKey(s, d, h, lk).Ok?
          ensures RegisterKey(s, d1, h, lk).Ok? ==> RegisterKey(s, d1, h, lk).value[lk.key] == RegisterKey(s, d, h, lk).value[lk.key]
        {
          RegisterKeyLocal(s, d, d1, h, lk);
        }
        if r.failure.None? {
          assert lk0.key in d1 && d1[lk0.key] == first.value[lk0.key];
          forall k | k in r.dict && k !in Names(keys) ensures k in d && r.dict[k] == d[k] {
            assert k in d1 && r.dict[k] == d1[k];
          }
          forall k | k in d && k !in Names(keys) ensures k in r.dict {
            assert k in d1;
          }
        }
      }
    }
  }

  /** Registering one key reads and writes the index only at that key. */
  lemma RegisterKeyLocal<K>(s: Storage, d: map<K, Entry>, d1: map<K, Entry>, h: Handle, lk: LookupKey<K>)
    requires lk.key in d <==> lk.key in d1
    requires lk.key in d ==> d[lk.key] == d1[lk.key]
    ensures RegisterKey(s, d1, h, lk).Ok? == RegisterKey(s, d, h, lk).Ok?
    ensures RegisterKey(s, d1, h, lk).Ok? ==> RegisterKey(s, d1, h, lk).value[lk.key] == RegisterKey(s, d, h, lk).value[lk.key]
  {
  }

  /** Unregistering one key reads and writes the index only at that key. */
  lemma UnregisterKeyLocal<K>(s: Storage, d: map<K, Entry>, d1: map<K, Entry>, h: Handle, lk: LookupKey<K>)
    requires lk.key in d <==> lk.key in d1
    requires lk.key in d ==> d[lk.key] == d1[lk.key]
    ensures UnregisterKey(s, d1, h, lk).Ok? == UnregisterKey(s, d, h, lk).Ok?
    ensures UnregisterKey(s, d1, h, lk).Ok? ==>
      && (lk.key in UnregisterKey(s, d1, h, lk).value <==> lk.key in UnregisterKey(s, d, h, lk).value)
      && (lk.key in UnregisterKey(s, d, h, lk).value ==>
          UnregisterKey(s, d1, h, lk).value[lk.key] == UnregisterKey(s, d, h, lk).value[lk.key])
  {
  }

  /** The same for the unregistration loop. */
  lemma {:induction false} UnregisterKeysPointwise<K>(s: Storage, d: map<K, Entry>, h: Handle, keys: seq<LookupKey<K>>)
    requires DistinctKeys(keys)
    ensures UnregisterKeys(s, d, h, keys).failure.None? <==> forall lk :: lk in keys ==> UnregisterKey(s, d, h, lk).Ok?
    ensures UnregisterKeys(s, d, h, keys).failure.None? ==>
      && SameOutside(UnregisterKeys(s, d, h, keys).dict, d, keys)
      && UnregisteredAlone(s, UnregisterKeys(s, d, h, keys).dict, d, h, keys)
    decreases |keys|
  {
    if |keys| > 0 {
      var lk0, rest := keys[0], keys[1..];
      SplitKeys(keys);
      var first := UnregisterKey(s, d, h, lk0);
      if first.Ok? {
        var d1 := first.value;
        var r := UnregisterKeys(s, d1, h, rest);
        assert UnregisterKeys(s, d, h, keys) == r;
        UnregisterKeysPointwise(s, d1, h, rest);
        forall lk | lk in rest
          ensures UnregisterKey(s, d1, h, lk).Ok? == UnregisterKey(s, d, h, lk).Ok?
          ensures UnregisterKey(s, d1, h, lk).Ok? ==>
            && (lk.key in UnregisterKey(s, d1, h, lk).value <==> lk.key in UnregisterKey(s, d, h, lk).value)
            && (lk.key in UnregisterKey(s, d, h, lk).value ==>
                UnregisterKey(s, d1, h, lk).value[lk.key] == UnregisterKey(s, d, h, lk).value[lk.key])
        {
          UnregisterKeyLocal(s, d, d1, h, lk);
        }
        if r.failure.None? {
          forall k | k in r.dict && k !in Names(keys) ensures k in d && r.dict[k] == d[k] {
            assert k in d1 && r.dict[k] == d1[k];
          }
          forall k | k in d && k !in Names(keys) ensures k in r.dict {
            assert k in d1;
          }
        }
      }
    }
  }

  /** A key of keys, by name. */
  lemma PickKey<K>(keys: seq<LookupKey<K>>, k: K) returns (lk: LookupKey<K>)
    requires k in Names(keys)
    ensures lk in keys && lk.key == k
  {
    lk :| lk in keys && lk.key == k;
  }

  /** In distinct-named keys, the key named lk.key is lk. */
  lemma SameNameSameKey<K>(keys: seq<LookupKey<K>>, lk: LookupKey<K>, lk2: LookupKey<K>)
    requires DistinctKeys(keys) && lk in keys && lk2 in keys && lk.key == lk2.key
    ensures lk == lk2
  {
    var i :| 0 <= i < |keys| && keys[i] == lk;
    var j :| 0 <= j < |keys| && keys[j] == lk2;
    assert i == j;
  }

  /**
   * Registering, with distinct names, the keys of a node that has no
   * reverse-index entry keeps the indexes linked once that entry is recorded.
   */
  lemma RegisterKeysLinked<K>(s: Storage, d: map<K, Entry>, ids: map<Handle, seq<LookupKey<K>>>, h: Handle, keys: seq<LookupKey<K>>)
    requires Linked(d, ids) && h !in ids && DistinctKeys(keys)
    requires RegisterKeys(s, d, h, keys).failure.None?
    ensures Linked(RegisterKeys(s, d, h, keys).dict, ids[h := keys])
  {
    var r := RegisterKeys(s, d, h, keys).dict;
    RegisterKeysPointwise(s, d, h, keys);
    UnrecordedUnheld(d, ids, h);
    RegisteredCollections(s, d, r, h, keys);
    RegisteredResolvedRecorded(s, d, ids, r, h, keys);
    RegisteredRecordedResolved(s, d, ids, r, h, keys);
  }

  /** A node without a reverse-index entry is held by no entry. */
  lemma UnrecordedUnheld<K>(d: map<K, Entry>, ids: map<Handle, seq<LookupKey<K>>>, h: Handle)
    requires ResolvedRecorded(d, ids) && h !in ids
    ensures Unheld(d, h)
  {
  }

  lemma RegisteredCollections<K>(s: Storage, d: map<K, Entry>, r: map<K, Entry>, h: Handle, keys: seq<LookupKey<K>>)
    requires CollectionsDistinct(d) && Unheld(d, h)
    requires SameOutside(r, d, keys) && RegisteredAlone(s, r, d, h, keys)
    ensures CollectionsDistinct(r)
  {
    forall k | k in r && r[k].Shared? ensures |r[k].members| > 0 && Distinct(r[k].members) {
      if k in Names(keys) {
        var lk := PickKey(keys, k);
        if k in d {
          assert !Holds(d[k], h);
          DistinctAppend(d[k].members, h);
        } else {
          assert r[k].members == [h];
        }
      }
    }
  }

  lemma RegisteredResolvedRecorded<K>(s: Storage, d: map<K, Entry>, ids: map<Handle, seq<LookupKey<K>>>, r: map<K, Entry>, h: Handle, keys: seq<LookupKey<K>>)
    requires ResolvedRecorded(d, ids) && Unheld(d, h) && h !in ids
    requires SameOutside(r, d, keys) && RegisteredAlone(s, r, d, h, keys)
    ensures ResolvedRecorded(r, ids[h := keys])
  {
    var ids' := ids[h := keys];
    forall k, x | k in r && Holds(r[k], x) ensures x in ids' && LookupKey(k, r[k].Single?) in ids'[x] {
      if k in Names(keys) {
        var lk := PickKey(keys, k);
        if x == h {
          assert LookupKey(k, r[k].Single?) == lk;
        } else {
          assert k in d && d[k].Shared? && Holds(d[k], x);
        }
      } else {
        assert k in d && r[k] == d[k];
      }
    }
  }

  lemma RegisteredRecordedResolved<K>(s: Storage, d: map<K, Entry>, ids: map<Handle, seq<LookupKey<K>>>, r: map<K, Entry>, h: Handle, keys: seq<LookupKey<K>>)
    requires RecordedResolved(d, ids) && h !in ids
    requires SameOutside(r, d, keys) && RegisteredAlone(s, r, d, h, keys)
    ensures RecordedResolved(r, ids[h := keys])
  {
    var ids' := ids[h := keys];
    forall x, i | x in ids' && 0 <= i < |ids'[x]| ensures Bound(r, ids'[x][i], x) {
      if x != h {
        var lk := ids[x][i];
        assert Bound(d, lk, x);
        if lk.key in Names(keys) {
          var lk2 := PickKey(keys, lk.key);
          assert RegisterKey(s, d, h, lk2).Ok?;
        } else {
          assert lk.key in r && r[lk.key] == d[lk.key];
        }
      } else {
        assert keys[i] in keys;
      }
    }
  }

  /**
   * Unregistering the recorded keys of a node keeps the indexes linked once
   * its reverse-index entry is dropped; none of those keys can fail, and no
   * entry resolves to the node afterwards.
   */
  lemma UnregisterKeysLinked<K>(s: Storage, d: map<K, Entry>, ids: map<Handle, seq<LookupKey<K>>>, h: Handle)
    requires Linked(d, ids) && h in ids
    ensures UnregisterKeys(s, d, h, ids[h]).failure.None?
    ensures Linked(UnregisterKeys(s, d, h, ids[h]).dict, ids - {h})
    ensures Unheld(UnregisterKeys(s, d, h, ids[h]).dict, h)
  {
    var keys := ids[h];
    forall lk | lk in keys ensures UnregisterKey(s, d, h, lk).Ok? {
      var i :| 0 <= i < |keys| && keys[i] == lk;
      assert Bound(d, lk, h);
    }
    UnregisterKeysPointwise(s, d, h, keys);
    var u := UnregisterKeys(s, d, h, keys).dict;
    UnregisteredCollections(s, d, u, h, keys);
    UnregisteredShrunk(s, d, ids, u, h);
    ShrunkResolvedRecorded(d, ids, u, h);
    UnregisteredUnheld(s, d, ids, u, h);
    UnregisteredRecordedResolved(s, d, ids, u, h);
  }

  /** What dropping h from a collection of distinct handles leaves. */
  lemma DiscardDistinct(c: seq<Handle>, h: Handle)
    requires h in c && Distinct(c)
    ensures Distinct(Discard(c, h)) && h !in Discard(c, h)
    ensures forall x :: x != h ==> (x in Discard(c, h) <==> x in c)
  {
    var m := multiset(Discard(c, h));
    assert m == multiset(c) - multiset{h};
    forall y ensures m[y] <= 1 {
      assert multiset(c)[y] <= 1;
    }
    assert multiset(c)[h] <= 1;
    assert m[h] == 0;
    forall x | x != h ensures x in Discard(c, h) <==> x in c {
      assert m[x] == multiset(c)[x];
    }
  }

  lemma DiscardKeepsDistinct(c: seq<Handle>, h: Handle)
    requires h in c
    ensures Distinct(c) ==> Distinct(Discard(c, h))
  {
    if Distinct(c) {
      DiscardDistinct(c, h);
    }
  }

  lemma UnregisteredCollections<K>(s: Storage, d: map<K, Entry>, u: map<K, Entry>, h: Handle, keys: seq<LookupKey<K>>)
    requires CollectionsDistinct(d)
    requires SameOutside(u, d, keys) && UnregisteredAlone(s, u, d, h, keys)
    ensures CollectionsDistinct(u)
  {
    forall k | k in u && u[k].Shared? ensures |u[k].members| > 0 && Distinct(u[k].members) {
      if k in Names(keys) {
        var lk := PickKey(keys, k);
        DiscardDistinct(d[k].members, h);
      }
    }
  }

  lemma UnregisteredUnheld<K>(s: Storage, d: map<K, Entry>, ids: map<Handle, seq<LookupKey<K>>>, u: map<K, Entry>, h: Handle)
    requires CollectionsDistinct(d) && ResolvedRecorded(d, ids) && h in ids
    requires SameOutside(u, d, ids[h]) && UnregisteredAlone(s, u, d, h, ids[h])
    ensures Unheld(u, h)
  {
    var keys := ids[h];
    forall k | k in u ensures !Holds(u[k], h) {
      if k in Names(keys) {
        var lk := PickKey(keys, k);
        if u[k].Shared? {
          DiscardDistinct(d[k].members, h);
        }
      }
    }
  }

  /** An entry left by unregistration still resolves to a node only if the old one did. */
  lemma UnregisteredEntry<K>(s: Storage, d: map<K, Entry>, u: map<K, Entry>, h: Handle, keys: seq<LookupKey<K>>, k: K, x: Handle)
    requires CollectionsDistinct(d) && SameOutside(u, d, keys) && UnregisteredAlone(s, u, d, h, keys)
    requires k in u && Holds(u[k], x) && x != h
    ensures k in d && Holds(d[k], x) && u[k].Single? == d[k].Single?
  {
    if k in Names(keys) {
      var lk := PickKey(keys, k);
      DiscardDistinct(d[k].members, h);
    }
  }

  lemma ResolvedRecordedAt<K>(d: map<K, Entry>, ids: map<Handle, seq<LookupKey<K>>>, k: K, x: Handle)
    requires ResolvedRecorded(d, ids) && k in d && Holds(d[k], x)
    ensures x in ids && LookupKey(k, d[k].Single?) in ids[x]
  {
  }

  /** Every binding of u is a binding of d other than one to h. */
  ghost predicate Shrunk<K>(u: map<K, Entry>, d: map<K, Entry>, h: Handle) {
    forall k, x :: k in u && Holds(u[k], x) ==> x != h && k in d && Holds(d[k], x) && u[k].Single? == d[k].Single?
  }

  lemma UnregisteredShrunk<K>(s: Storage, d: map<K, Entry>, ids: map<Handle, seq<LookupKey<K>>>, u: map<K, Entry>, h: Handle)
    requires CollectionsDistinct(d) && ResolvedRecorded(d, ids) && h in ids
    requires SameOutside(u, d, ids[h]) && UnregisteredAlone(s, u, d, h, ids[h])
    ensures Shrunk(u, d, h)
  {
    UnregisteredUnheld(s, d, ids, u, h);
    forall k, x | k in u && Holds(u[k], x) ensures x != h && k in d && Holds(d[k], x) && u[k].Single? == d[k].Single? {
      UnregisteredEntry(s, d, u, h, ids[h], k, x);
    }
  }

  lemma ShrunkResolvedRecorded<K>(d: map<K, Entry>, ids: map<Handle, seq<LookupKey<K>>>, u: map<K, Entry>, h: Handle)
    requires ResolvedRecorded(d, ids) && Shrunk(u, d, h)
    ensures ResolvedRecorded(u, ids - {h})
  {
    forall k, x | k in u && Holds(u[k], x) ensures x in ids - {h} && LookupKey(k, u[k].Single?) in (ids - {h})[x] {
      ResolvedRecordedAt(d, ids, k, x);
    }
  }

  lemma UnregisteredRecordedResolved<K>(s: Storage, d: map<K, Entry>, ids: map<Handle, seq<LookupKey<K>>>, u: map<K, Entry>, h: Handle)
    requires CollectionsDistinct(d) && RecordedResolved(d, ids) && h in ids
    requires SameOutside(u, d, ids[h]) && UnregisteredAlone(s, u, d, h, ids[h])
    ensures RecordedResolved(u, ids - {h})
  {
    var keys := ids[h];
    forall x, i | x in ids - {h} && 0 <= i < |ids[x]| ensures Bound(u, ids[x][i], x) {
      var lk := ids[x][i];
      assert Bound(d, lk, x);
      if lk.key in Names(keys) {
        var lk2 := PickKey(keys, lk.key);
        var j :| 0 <= j < |keys| && keys[j] == lk2;
        assert Bound(d, lk2, h);
        DiscardDistinct(d[lk.key].members, h);
      } else {
        assert lk.key in u && u[lk.key] == d[lk.key];
      }
    }
  }

  // ---------------------------------------------------------------------
  // What the operations do to a consistent container

  /**
   * With distinct key names and a node not yet stored, `add` succeeds exactly
   * when every unique key is free and every shared key is free or already a
   * collection.
   */
  lemma AddNodeSucceeds<K>(s: Storage, st: State<K>, h: Handle, keys: seq<LookupKey<K>>)
    requires DistinctKeys(keys) && h !in st.nodes
    ensures AddNode(s, st, h, keys).failure.None? <==>
      forall lk :: lk in keys && lk.key in st.dict ==> !lk.unique && st.dict[lk.key].Shared?
  {
    RegisterKeysPointwise(s, st.dict, h, keys);
  }

  /**
   * A successful `add` binds each unique key to the node, puts the node in
   * each shared key's collection (a new one on first use), leaves every other
   * key alone, records the keys and stores the node once more.
   */
  lemma AddNodeRegisters<K>(s: Storage, st: State<K>, h: Handle, keys: seq<LookupKey<K>>)
    requires DistinctKeys(keys) && AddNode(s, st, h, keys).failure.None?
    ensures var r := AddNode(s, st, h, keys).state;
      && (forall lk :: lk in keys && lk.unique ==> lk.key in r.dict && r.dict[lk.key] == Single(h))
      && (forall lk :: lk in keys && !lk.unique && lk.key !in st.dict ==> lk.key in r.dict && r.dict[lk.key] == Shared([h]))
      && (forall lk :: lk in keys && !lk.unique && lk.key in st.dict ==>
            st.dict[lk.key].Shared? && lk.key in r.dict && r.dict[lk.key] == Shared(Insert(s, st.dict[lk.key].members, h)))
      && SameOutside(r.dict, st.dict, keys)
      && r.id2keys == st.id2keys[h := keys]
      && |r.nodes| == |st.nodes| + 1
  {
    RegisterKeysPointwise(s, st.dict, h, keys);
  }

  /** A successful `add` of keys with distinct names keeps the container consistent. */
  lemma AddNodeConsistent<K>(s: Storage, st: State<K>, h: Handle, keys: seq<LookupKey<K>>)
    requires Consistent(s, st) && DistinctKeys(keys)
    requires AddNode(s, st, h, keys).failure.None?
    ensures Consistent(s, AddNode(s, st, h, keys).state)
  {
    assert h !in st.id2keys;
    RegisterKeysLinked(s, st.dict, st.id2keys, h, keys);
  }

  /**
   * On a consistent container, removing a stored node with the keys it
   * registered succeeds, drops the node from storage and both indexes, and
   * keeps the container consistent.
   */
  lemma RemoveNodeConsistent<K>(s: Storage, st: State<K>, h: Handle)
    requires Consistent(s, st) && h in st.id2keys
    ensures RemoveNode(s, st, h, st.id2keys[h]).failure.None?
    ensures var r := RemoveNode(s, st, h, st.id2keys[h]).state;
      Consistent(s, r) && h !in r.nodes && Unheld(r.dict, h)
  {
    UnregisterKeysLinked(s, st.dict, st.id2keys, h);
    DiscardDistinct(st.nodes, h);
  }

  /** A successful `updatekeys` to keys with distinct names keeps the container consistent. */
  lemma UpdateNodeKeysConsistent<K>(s: Storage, st: State<K>, h: Handle, keys: seq<LookupKey<K>>)
    requires Consistent(s, st) && DistinctKeys(keys)
    requires UpdateNodeKeys(s, st, h, keys).failure.None?
    ensures Consistent(s, UpdateNodeKeys(s, st, h, keys).state)
  {
    UnregisterKeysLinked(s, st.dict, st.id2keys, h);
    var u := UnregisterKeys(s, st.dict, h, st.id2keys[h]).dict;
    RegisterKeysLinked(s, u, st.id2keys - {h}, h, keys);
    assert (st.id2keys - {h})[h := keys] == st.id2keys[h := keys];
  }

  /**
   * On a consistent container `updatekeys` never fails while unregistering:
   * it unregisters exactly the recorded keys, and then registers the new ones
   * into what that leaves.
   */
  lemma UpdateNodeKeysUnregistersRecorded<K>(s: Storage, st: State<K>, h: Handle, keys: seq<LookupKey<K>>)
    requires Consistent(s, st) && h in st.id2keys
    ensures var u := UnregisterKeys(s, st.dict, h, st.id2keys[h]);
      && u.failure.None?
      && Unheld(u.dict, h)
      && UpdateNodeKeys(s, st, h, keys).state.dict == RegisterKeys(s, u.dict, h, keys).dict
      && UpdateNodeKeys(s, st, h, keys).failure == RegisterKeys(s, u.dict, h, keys).failure
  {
    UnregisterKeysLinked(s, st.dict, st.id2keys, h);
  }

  /**
   * Unregistering keys just registered by a node no entry held gives the
   * index back unchanged.
   */
  lemma RegisterUnregister<K>(s: Storage, d: map<K, Entry>, h: Handle, keys: seq<LookupKey<K>>)
    requires CollectionsDistinct(d) && Unheld(d, h) && DistinctKeys(keys)
    requires RegisterKeys(s, d, h, keys).failure.None?
    ensures UnregisterKeys(s, RegisterKeys(s, d, h, keys).dict, h, keys) == Step(d, None)
  {
    var r := RegisterKeys(s, d, h, keys).dict;
    RegisterKeysPointwise(s, d, h, keys);
    RegisteredUnregistrable(s, d, r, h, keys);
    UnregisterKeysPointwise(s, r, h, keys);
    var u := UnregisterKeys(s, r, h, keys).dict;
    RestoredIndex(s, d, r, u, h, keys);
  }

  lemma RegisteredUnregistrable<K>(s: Storage, d: map<K, Entry>, r: map<K, Entry>, h: Handle, keys: seq<LookupKey<K>>)
    requires RegisteredAlone(s, r, d, h, keys)
    ensures forall lk :: lk in keys ==> UnregisterKey(s, r, h, lk).Ok?
  {
    forall lk | lk in keys ensures UnregisterKey(s, r, h, lk).Ok? {
      assert Bound(r, lk, h);
    }
  }

  /** u and d agree at every name of keys. */
  ghost predicate AgreeAt<K>(u: map<K, Entry>, d: map<K, Entry>, keys: seq<LookupKey<K>>) {
    forall k :: k in Names(keys) ==> (k in u <==> k in d) && (k in u ==> u[k] == d[k])
  }

  lemma RestoredIndex<K>(s: Storage, d: map<K, Entry>, r: map<K, Entry>, u: map<K, Entry>, h: Handle, keys: seq<LookupKey<K>>)
    requires CollectionsDistinct(d) && Unheld(d, h)
    requires SameOutside(r, d, keys) && RegisteredAlone(s, r, d, h, keys)
    requires SameOutside(u, r, keys) && UnregisteredAlone(s, u, r, h, keys)
    ensures u == d
  {
    RestoredAtKeys(s, d, r, u, h, keys);
    AgreeEverywhere(d, r, u, keys);
  }

  lemma RestoredAtKeys<K>(s: Storage, d: map<K, Entry>, r: map<K, Entry>, u: map<K, Entry>, h: Handle, keys: seq<LookupKey<K>>)
    requires CollectionsDistinct(d) && Unheld(d, h)
    requires RegisteredAlone(s, r, d, h, keys) && UnregisteredAlone(s, u, r, h, keys)
    ensures AgreeAt(u, d, keys)
  {
    forall k | k in Names(keys) ensures (k in u <==> k in d) && (k in u ==> u[k] == d[k]) {
      var lk := PickKey(keys, k);
      UnregisterRegistered(s, d, r, u, h, keys, lk);
    }
  }

  lemma AgreeEverywhere<K>(d: map<K, Entry>, r: map<K, Entry>, u: map<K, Entry>, keys: seq<LookupKey<K>>)
    requires SameOutside(r, d, keys) && SameOutside(u, r, keys) && AgreeAt(u, d, keys)
    ensures u == d
  {
    assert u.Keys == d.Keys;
  }

  lemma UnregisterRegistered<K>(s: Storage, d: map<K, Entry>, r: map<K, Entry>, u: map<K, Entry>, h: Handle, keys: seq<LookupKey<K>>, lk: LookupKey<K>)
    requires CollectionsDistinct(d) && Unheld(d, h)
    requires RegisteredAlone(s, r, d, h, keys) && UnregisteredAlone(s, u, r, h, keys) && lk in keys
    ensures (lk.key in u <==> lk.key in d) && (lk.key in u ==> u[lk.key] == d[lk.key])
  {
    if !lk.unique && lk.key in d {
      var c := d[lk.key].members;
      assert !Holds(d[lk.key], h);
      DiscardAppended(c, h);
    }
  }

  /**
   * Removing a node right after adding it, with the same keys, gives the
   * container back exactly.
   */
  lemma AddRemoveRoundTrip<K>(s: Storage, st: State<K>, h: Handle, keys: seq<LookupKey<K>>)
    requires Consistent(s, st) && DistinctKeys(keys)
    requires AddNode(s, st, h, keys).failure.None?
    ensures var added := AddNode(s, st, h, keys).state;
      WellFormed(s, added) && RemoveNode(s, added, h, keys) == Outcome(st, None)
  {
    assert h !in st.id2keys;
    UnrecordedUnheld(st.dict, st.id2keys, h);
    AddRemoveFresh(s, st, h, keys);
  }

  lemma AddRemoveFresh<K>(s: Storage, st: State<K>, h: Handle, keys: seq<LookupKey<K>>)
    requires WellFormed(s, st) && CollectionsDistinct(st.dict) && Unheld(st.dict, h) && h !in st.id2keys
    requires DistinctKeys(keys) && AddNode(s, st, h, keys).failure.None?
    ensures var added := AddNode(s, st, h, keys).state;
      WellFormed(s, added) && RemoveNode(s, added, h, keys) == Outcome(st, None)
  {
    var added := AddNode(s, st, h, keys).state;
    assert h !in st.nodes;
    assert added == State(st.nodes + [h], RegisterKeys(s, st.dict, h, keys).dict, st.id2keys[h := keys]);
    RegisterUnregister(s, st.dict, h, keys);
    assert UnregisterKeys(s, added.dict, h, keys) == Step(st.dict, None);
    DiscardAppended(st.nodes, h);
    assert Discard(added.nodes, h) == st.nodes;
    assert added.id2keys - {h} == st.id2keys;
    assert RemoveNode(s, added, h, keys) == Outcome(State(st.nodes, st.dict, st.id2keys), None);
  }

  /**
   * A key already bound to a single node blocks registration of any lookup
   * key with that name: the loop raises, and the binding stays as it was.
   */
  lemma {:induction false} RegisterKeysBlocked<K>(s: Storage, d: map<K, Entry>, h: Handle, keys: seq<LookupKey<K>>, k: K)
    requires k in d && d[k].Single? && k in Names(keys)
    ensures RegisterKeys(s, d, h, keys).failure.Some?
    ensures k in RegisterKeys(s, d, h, keys).dict && RegisterKeys(s, d, h, keys).dict[k] == d[k]
    decreases |keys|
  {
    if keys[0].key != k {
      var lk :| lk in keys && lk.key == k;
      var i :| 0 <= i < |keys| && keys[i] == lk;
      assert keys[1..][i - 1] == lk;
      match RegisterKey(s, d, h, keys[0])
      case Err(e) =>
      case Ok(d1) => RegisterKeysBlocked(s, d1, h, keys[1..], k);
    }
  }

  /**
   * When the key loop raises, the keys before the failing one are all
   * registered, and the index is what registering exactly those leaves.
   */
  lemma {:induction false} RegisterKeysPrefix<K>(s: Storage, d: map<K, Entry>, h: Handle, keys: seq<LookupKey<K>>) returns (i: nat)
    requires RegisterKeys(s, d, h, keys).failure.Some?
    ensures i < |keys|
    ensures RegisterKeys(s, d, h, keys[..i]) == Step(RegisterKeys(s, d, h, keys).dict, None)
    ensures RegisterKey(s, RegisterKeys(s, d, h, keys).dict, h, keys[i]) == Err(RegisterKeys(s, d, h, keys).failure.value)
    decreases |keys|
  {
    match RegisterKey(s, d, h, keys[0])
    case Err(e) =>
      i := 0;
    case Ok(d1) =>
      var j := RegisterKeysPrefix(s, d1, h, keys[1..]);
      i := j + 1;
      assert keys[..i][1..] == keys[1..][..j];
  }

  /**
   * `add` with a key conflict: the node is not stored and gets no reverse
   * entry, yet the keys registered before the conflict stay in the index.
   */
  lemma AddNodeConflict<K>(s: Storage, st: State<K>, h: Handle, keys: seq<LookupKey<K>>, k: K)
    requires h !in st.nodes && k in st.dict && st.dict[k].Single? && k in Names(keys)
    ensures var r := AddNode(s, st, h, keys);
      && r.failure.Some?
      && r.state == st.(dict := RegisterKeys(s, st.dict, h, keys).dict)
      && k in r.state.dict && r.state.dict[k] == st.dict[k]
  {
    RegisterKeysBlocked(s, st.dict, h, keys, k);
  }

  /**
   * `remove` of a node that is not stored, whose current lookup key names
   * another node's unique key: that binding is deleted, and only then does
   * the missing reverse entry raise.
   */
  lemma StaleRemoveUnbinds<K>(s: Storage, st: State<K>, h: Handle, k: K)
    requires WellFormed(s, st) && h !in st.id2keys && k in st.dict && st.dict[k].Single?
    ensures RemoveNode(s, st, h, [LookupKey(k, true)]) == Outcome(st.(dict := st.dict - {k}), Some(UnknownNode(h)))
  {
    var keys := [LookupKey(k, true)];
    assert UnregisterKeys(s, st.dict - {k}, h, keys[1..]) == Step(st.dict - {k}, None);
  }

  // ---------------------------------------------------------------------
  // removeall

  /**
   * Why the round trip needs distinct key names: a node of a 'set'
   * container that declares the same shared name twice is added (the second
   * set.add changes nothing), but removing it under those keys fails. The
   * first discard empties the collection, which is deleted, and the second
   * finds the key gone.
   */
  lemma RepeatedSharedName<K>(h: Handle, k: K)
    ensures var keys := [LookupKey(k, false), LookupKey(k, false)];
      var a := AddNode(SetStorage, State([], map[], map[]), h, keys);
      && a.failure.None? && a.state.nodes == [h]
      && WellFormed(SetStorage, a.state)
      && RemoveNode(SetStorage, a.state, h, keys).failure == Some(KeyNotFound(k))
  {
    var keys := [LookupKey(k, false), LookupKey(k, false)];
    var empty: State<K> := State([], map[], map[]);
    ConsistentEmpty<K>(SetStorage);
    var d1 := map[k := Shared([h])];
    assert RegisterKey(SetStorage, map[], h, keys[0]) == Ok(d1);
    assert Insert(SetStorage, [h], h) == [h];
    assert d1[k := Shared([h])] == d1;
    assert RegisterKey(SetStorage, d1, h, keys[1]) == Ok(d1);
    assert keys[1..] == [LookupKey(k, false)] && keys[1..][1..] == [];
    assert RegisterKeys(SetStorage, d1, h, keys[1..]) == Step(d1, None);
    assert RegisterKeys(SetStorage, map[], h, keys) == Step(d1, None);
    var a := AddNode(SetStorage, empty, h, keys);
    assert a.state.dict == d1;
    assert Discard([h], h) == [];
    assert UnregisterKey(SetStorage, d1, h, keys[0]) == Ok(map[]);
    assert UnregisterKey(SetStorage, map[], h, keys[1]) == Err(KeyNotFound(k));
    assert UnregisterKeys(SetStorage, d1, h, keys).failure == Some(KeyNotFound(k));
  }

  /** What `node.lookupkeys()` answers, given the answers of the described nodes; a node never described has no keys. */
  function CurrentKeys<K>(m: map<Handle, seq<LookupKey<K>>>, h: Handle): seq<LookupKey<K>> {
    if h in m then m[h] else []
  }

  /**
   * The loop of `removeall`: removes the nodes of hs in order, each with its
   * current keys, and stops at the first exception.
   */
  function RemoveEach<K>(s: Storage, st: State<K>, m: map<Handle, seq<LookupKey<K>>>, hs: seq<Handle>): (r: Outcome<K>)
    requires WellFormed(s, st)
    ensures WellFormed(s, r.state)
    ensures r.failure.None? ==> |r.state.nodes| + |hs| == |st.nodes|
    decreases |hs|
  {
    if |hs| == 0 then Outcome(st, None)
    else
      var o := RemoveNode(s, st, hs[0], CurrentKeys(m, hs[0]));
      if o.failure.Some? then o else RemoveEach(s, o.state, m, hs[1..])
  }

  /** The first handle's removal decides the outcome if it fails, and leads to the rest otherwise. */
  lemma RemoveEachFirst<K>(s: Storage, st: State<K>, m: map<Handle, seq<LookupKey<K>>>, hs: seq<Handle>)
    requires WellFormed(s, st) && |hs| > 0
    ensures var o := RemoveNode(s, st, hs[0], CurrentKeys(m, hs[0]));
      && (o.failure.Some? ==> RemoveEach(s, st, m, hs) == o)
      && (o.failure.None? ==> RemoveEach(s, st, m, hs) == RemoveEach(s, o.state, m, hs[1..]))
  {
  }

  /** A consistent container with no stored node has empty indexes. */
  lemma EmptyConsistent<K>(s: Storage, st: State<K>)
    requires Consistent(s, st) && st.nodes == []
    ensures st == State([], map[], map[])
  {
    assert st.id2keys.Keys == {};
    forall k ensures k !in st.dict {
      if k in st.dict {
        var x := if st.dict[k].Single? then st.dict[k].node else st.dict[k].members[0];
        ResolvedRecordedAt(st.dict, st.id2keys, k, x);
      }
    }
    assert st.dict.Keys == {};
  }

  /**
   * On a consistent container whose nodes still answer the keys they
   * registered, the loop of `removeall` raises nothing and already leaves
   * storage and both indexes empty.
   */
  lemma {:induction false} RemoveEachClean<K>(s: Storage, st: State<K>, m: map<Handle, seq<LookupKey<K>>>)
    requires Consistent(s, st)
    requires forall h :: h in st.nodes ==> CurrentKeys(m, h) == st.id2keys[h]
    ensures RemoveEach(s, st, m, st.nodes) == Outcome(State([], map[], map[]), None)
    decreases |st.nodes|
  {
    if |st.nodes| == 0 {
      EmptyConsistent(s, st);
    } else {
      var h := st.nodes[0];
      RemoveNodeConsistent(s, st, h);
      var o := RemoveNode(s, st, h, st.id2keys[h]);
      assert o.state.nodes == st.nodes[1..];
      forall x | x in o.state.nodes ensures CurrentKeys(m, x) == o.state.id2keys[x] {
        assert x in st.nodes && x != h;
      }
      RemoveEachClean(s, o.state, m);
    }
  }

  /** The handles a sequence holds. */
  function Members(c: seq<Handle>): set<Handle> {
    set x | x in c
  }

  /** A sequence without repeats has as many elements as its set. */
  lemma {:induction false} DistinctCardinality(c: seq<Handle>)
    requires Distinct(c)
    ensures |Members(c)| == |c|
  {
    if |c| > 0 {
      assert c == [c[0]] + c[1..];
      assert multiset(c)[c[0]] == 1 + multiset(c[1..])[c[0]];
      forall y ensures multiset(c[1..])[y] <= 1 {
        assert multiset(c)[y] <= 1;
      }
      DistinctCardinality(c[1..]);
      assert c[0] !in Members(c[1..]);
      assert Members(c) == Members(c[1..]) + {c[0]};
    }
  }

  /** On a consistent container the stored nodes are exactly the recorded ones. */
  lemma ConsistentCount<K>(s: Storage, st: State<K>)
    requires Consistent(s, st)
    ensures |st.nodes| == |st.id2keys|
  {
    DistinctCardinality(st.nodes);
    assert Members(st.nodes) == st.id2keys.Keys;
  }

  /** The length facts a Container reports, for any state. */
  lemma CountWhenConsistent<K>(s: Storage, st: State<K>)
    ensures WellFormed(s, st) ==> |st.nodes| == |Members(st.nodes)|
    ensures Consistent(s, st) ==> |st.nodes| == |st.id2keys|
  {
    if WellFormed(s, st) {
      DistinctCardinality(st.nodes);
    }
    if Consistent(s, st) {
      ConsistentCount(s, st);
    }
  }

  /** A new container is consistent. */
  lemma ConsistentEmpty<K>(s: Storage)
    ensures Consistent(s, State<K>.State([], map[], map[]))
  {
  }

  /** One node with a single unique key enters an empty container. */
  lemma FirstUniqueNode<K>(s: Storage, h1: Handle, k1: K)
    ensures var a1 := AddNode(s, State<K>.State([], map[], map[]), h1, [LookupKey(k1, true)]);
      && a1.failure.None? && a1.state.nodes == [h1] && a1.state.dict.Keys == {k1}
      && a1.state.id2keys == map[h1 := [LookupKey(k1, true)]] && Consistent(s, a1.state)
  {
    var st0 := State<K>.State([], map[], map[]);
    var keys1 := [LookupKey(k1, true)];
    ConsistentEmpty<K>(s);
    AddNodeSucceeds(s, st0, h1, keys1);
    AddNodeConsistent(s, st0, h1, keys1);
    AddNodeRegisters(s, st0, h1, keys1);
  }

  /** A second node with another unique key joins it. */
  lemma SecondUniqueNode<K>(s: Storage, st1: State<K>, h1: Handle, h2: Handle, k1: K, k2: K)
    requires h1 != h2 && k1 != k2
    requires st1.nodes == [h1] && st1.dict.Keys == {k1} && st1.id2keys == map[h1 := [LookupKey(k1, true)]]
    requires Consistent(s, st1)
    ensures var a2 := AddNode(s, st1, h2, [LookupKey(k2, true)]);
      && a2.failure.None? && a2.state.nodes == [h1, h2]
      && a2.state.id2keys == map[h1 := [LookupKey(k1, true)], h2 := [LookupKey(k2, true)]]
      && Consistent(s, a2.state)
  {
    var keys2 := [LookupKey(k2, true)];
    AddNodeSucceeds(s, st1, h2, keys2);
    AddNodeConsistent(s, st1, h2, keys2);
  }

  /**
   * Two nodes with one unique key each, under different names, added to an
   * empty container: both adds succeed, and the loop of `removeall` then
   * empties the container without raising.
   */
  lemma TwoUniqueNodes<K>(s: Storage, h1: Handle, h2: Handle, k1: K, k2: K, m: map<Handle, seq<LookupKey<K>>>)
    requires h1 != h2 && k1 != k2
    requires CurrentKeys(m, h1) == [LookupKey(k1, true)] && CurrentKeys(m, h2) == [LookupKey(k2, true)]
    ensures var a1 := AddNode(s, State([], map[], map[]), h1, [LookupKey(k1, true)]);
      var a2 := AddNode(s, a1.state, h2, [LookupKey(k2, true)]);
      && a1.failure.None? && a2.failure.None? && |a2.state.nodes| == 2
      && RemoveEach(s, a2.state, m, a2.state.nodes) == Outcome(State([], map[], map[]), None)
  {
    var st0 := State<K>.State([], map[], map[]);
    var keys1, keys2 := [LookupKey(k1, true)], [LookupKey(k2, true)];
    FirstUniqueNode(s, h1, k1);
    var st1 := AddNode(s, st0, h1, keys1).state;
    SecondUniqueNode(s, st1, h1, h2, k1, k2);
    var st2 := AddNode(s, st1, h2, keys2).state;
    RemoveEachClean(s, st2, m);
  }
}
