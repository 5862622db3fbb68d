/**
 * The Container of container3.py and its default node, ContainerNode, as
 * classes whose methods change their fields in place. Every method that
 * changes a container is proved to leave exactly the state, and raise exactly
 * the exception, that the matching function of ContainerIndex describes; what
 * those functions guarantee is proved there.
 */
module Container {
  import opened Wrappers
  import opened ContainerIndex

  /**
   * The nodes handed to containers, by handle: what each one answers to
   * `lookupkeys()` and `hasexpired()`, and how many times its `update()` and
   * `delete()` hooks have run. Nodes made by NewContainerNode behave as a
   * ContainerNode; the others stand for subclasses that override those
   * methods.
   */
  class Nodes<K(==)> {
    var keysOf: map<Handle, seq<LookupKey<K>>>
    var expired: set<Handle>
    var updates: multiset<Handle>
    var deletes: multiset<Handle>
    var next: Handle

    /** Only handles already given out are described. */
    ghost predicate Valid()
      reads this
    {
      && (forall h :: h in keysOf ==> h < next)
      && (forall h :: h in expired ==> h < next)
    }

    constructor ()
      ensures Valid() && next == 0
      ensures keysOf == map[] && expired == {} && updates == multiset{} && deletes == multiset{}
    {
      keysOf, expired := map[], {};
      updates, deletes := multiset{}, multiset{};
      next := 0;
    }

    /** `node.lookupkeys()`. */
    function LookupKeys(h: Handle): seq<LookupKey<K>>
      reads this`keysOf
    {
      CurrentKeys(keysOf, h)
    }

    /** `node.hasexpired()`. */
    predicate HasExpired(h: Handle)
      reads this`expired
    {
      h in expired
    }

    /** `node.update()`: the hook runs once more and does nothing else. */
    method Update(h: Handle)
      modifies this`updates
      ensures updates == old(updates) + multiset{h}
    {
      updates := updates + multiset{h};
    }

    /** `node.delete()`: the hook runs once more and does nothing else. */
    method Delete(h: Handle)
      modifies this`deletes
      ensures deletes == old(deletes) + multiset{h}
    {
      deletes := deletes + multiset{h};
    }

    /**
     * `ContainerNode(name)`: a new node whose only lookup key is its name,
     * unique, and which never expires.
     */
    method NewContainerNode(name: K) returns (h: Handle)
      requires Valid()
      modifies this`keysOf, this`next
      ensures Valid() && h == old(next) && next == h + 1 && h !in old(keysOf)
      ensures keysOf == old(keysOf)[h := [LookupKey(name, true)]]
      ensures LookupKeys(h) == [LookupKey(name, true)] && DistinctKeys(LookupKeys(h))
      ensures !HasExpired(h)
    {
      h := next;
      keysOf := keysOf[h := [LookupKey(name, true)]];
      next := next + 1;
    }

    /** A new node of a subclass whose `lookupkeys()` answers keys. */
    method NewNode(keys: seq<LookupKey<K>>) returns (h: Handle)
      requires Valid()
      modifies this`keysOf, this`next
      ensures Valid() && h == old(next) && next == h + 1 && h !in old(keysOf)
      ensures keysOf == old(keysOf)[h := keys]
      ensures !HasExpired(h)
    {
      h := next;
      keysOf := keysOf[h := keys];
      next := next + 1;
    }

    /** A subclass node whose `lookupkeys()` now answers keys. */
    method SetKeys(h: Handle, keys: seq<LookupKey<K>>)
      requires Valid() && h < next
      modifies this`keysOf
      ensures Valid() && keysOf == old(keysOf)[h := keys]
    {
      keysOf := keysOf[h := keys];
    }

    /** A subclass node whose `hasexpired()` now answers True. */
    method Expire(h: Handle)
      requires Valid() && h < next
      modifies this`expired
      ensures Valid() && expired == old(expired) + {h}
    {
      expired := expired + {h};
    }
  }

  /**
   * A Container: `_nodes`, `_dict` and `_dict_id2keys`, with the storage
   * discipline chosen at construction.
   */
  class Container<K(==)> {
    const storage: Storage
    var nodes: seq<Handle>
    var dict: map<K, Entry>
    var id2keys: map<Handle, seq<LookupKey<K>>>

    /** The three structures as a value. */
    function Snapshot(): State<K>
      reads this
    {
      State(nodes, dict, id2keys)
    }

    ghost predicate Valid()
      reads this
    {
      WellFormed(storage, Snapshot())
    }

    constructor (storage: Storage)
      ensures Valid() && this.storage == storage
      ensures Snapshot() == State([], map[], map[])
    {
      this.storage := storage;
      nodes, dict, id2keys := [], map[], map[];
    }

    /**
     * `Container(datatype=kind)`: only 'list' and 'set' are accepted; any
     * other kind raises before a container exists.
     */
    static method New(kind: string := "set") returns (r: Result<Container<K>, Error<K>>)
      ensures r.Ok? <==> kind == "list" || kind == "set"
      ensures r.Err? ==> r.error == UnsupportedDatatype
      ensures r.Ok? ==> fresh(r.value) && r.value.Valid() && r.value.Snapshot() == State([], map[], map[])
      ensures r.Ok? ==> r.value.storage == (if kind == "list" then ListStorage else SetStorage)
    {
      match StorageOf(kind)
      case None =>
        r := Err(UnsupportedDatatype);
      case Some(s) =>
        var c := new Container<K>(s);
        r := Ok(c);
    }

    /** `_add_lookupkeys(node, keys)`. */
    method AddLookupKeys(h: Handle, keys: seq<LookupKey<K>>) returns (failure: Option<Error<K>>)
      modifies this`dict
      ensures Step(dict, failure) == RegisterKeys(storage, old(dict), h, keys)
    {
      var i := 0;
      while i < |keys|
        invariant 0 <= i <= |keys|
        invariant RegisterKeys(storage, old(dict), h, keys) == RegisterKeys(storage, dict, h, keys[i..])
      {
        assert keys[i..][1..] == keys[i + 1..];
        var key, isUnique := keys[i].key, keys[i].unique;
        if !isUnique {
          // a missing shared key starts as an empty collection
          var coll := if key in dict then dict[key] else Shared([]);
          if coll.Single? {
            return Some(NotACollection(key));
          }
          assert key !in dict ==> Insert(storage, coll.members, h) == [h];
          dict := dict[key := Shared(Insert(storage, coll.members, h))];
        } else if key in dict {
          return Some(KeyConflict(key));
        } else {
          dict := dict[key := Single(h)];
        }
        i := i + 1;
      }
      return None;
    }

    /** `_remove_lookupkeys(node, keys)`. */
    method RemoveLookupKeys(h: Handle, keys: seq<LookupKey<K>>) returns (failure: Option<Error<K>>)
      modifies this`dict
      ensures Step(dict, failure) == UnregisterKeys(storage, old(dict), h, keys)
    {
      var i := 0;
      while i < |keys|
        invariant 0 <= i <= |keys|
        invariant UnregisterKeys(storage, old(dict), h, keys) == UnregisterKeys(storage, dict, h, keys[i..])
      {
        assert keys[i..][1..] == keys[i + 1..];
        var key, isUnique := keys[i].key, keys[i].unique;
        if !isUnique {
          if key !in dict {
            return Some(KeyNotFound(key));
          }
          if dict[key].Single? {
            return Some(NotACollection(key));
          }
          if h !in dict[key].members {
            return Some(NotAMember(key, h, storage));
          }
          var rest := Discard(dict[key].members, h);
          if |rest| == 0 {
            dict := dict - {key};
          } else {
            dict := dict[key := Shared(rest)];
          }
        } else if key !in dict {
          return Some(KeyNotFound(key));
        } else {
          dict := dict - {key};
        }
        i := i + 1;
      }
      return None;
    }

    /** `add(node)`. */
    method Add(env: Nodes<K>, h: Handle) returns (failure: Option<Error<K>>)
      requires Valid()
      modifies this`nodes, this`dict, this`id2keys
      ensures Valid()
      ensures Outcome(Snapshot(), failure) == AddNode(storage, old(Snapshot()), h, env.LookupKeys(h))
    {
      if h in nodes {
        return Some(DuplicateNode(h));
      }
      var keys := env.LookupKeys(h);
      failure := AddLookupKeys(h, keys);
      if failure.Some? {
        return;
      }
      id2keys := id2keys[h := keys];
      nodes := Insert(storage, nodes, h);
    }

    /** `get(key, update)`: raises KeyError for an absent key. */
    method Get(env: Nodes<K>, key: K, update: bool := false) returns (r: Result<Entry, Error<K>>)
      modifies env`updates
      ensures r.Ok? <==> key in dict
      ensures r.Ok? ==> r.value == dict[key]
      ensures r.Err? ==> r.error == KeyNotFound(key)
      ensures env.updates == old(env.updates) + if update && r.Ok? && r.value.Single? then multiset{r.value.node} else multiset{}
    {
      if key !in dict {
        return Err(KeyNotFound(key));
      }
      var e := dict[key];
      if update && e.Single? {
        env.Update(e.node);
      }
      return Ok(e);
    }

    /** `getall()`: a copy of the storage, in which no node appears twice. */
    method GetAll() returns (r: seq<Handle>)
      requires Valid()
      ensures r == nodes && Distinct(r)
    {
      r := nodes;
    }

    /** `remove(node, callback)`. */
    method Remove(env: Nodes<K>, h: Handle, callback: bool := true) returns (failure: Option<Error<K>>)
      requires Valid()
      modifies this`nodes, this`dict, this`id2keys, env`deletes
      ensures Valid()
      ensures Outcome(Snapshot(), failure) == RemoveNode(storage, old(Snapshot()), h, env.LookupKeys(h))
      ensures env.deletes == old(env.deletes) + if failure.None? && callback then multiset{h} else multiset{}
    {
      var keys := env.LookupKeys(h);
      ghost var o := RemoveNode(storage, Snapshot(), h, keys);
      failure := RemoveLookupKeys(h, keys);
      if failure.Some? {
        assert Snapshot() == o.state;
        return;
      }
      if h !in id2keys {
        assert Snapshot() == o.state;
        return Some(UnknownNode(h));
      }
      id2keys := id2keys - {h};
      nodes := Discard(nodes, h);
      assert Snapshot() == o.state;
      if callback {
        env.Delete(h);
      }
    }

    /**
     * `has(key, check_expire)`: an absent key answers False; a shared
     * collection answers True; an expired node is removed first and answers
     * False. A KeyError raised by that removal is caught; any other exception
     * escapes (failure).
     */
    method Has(env: Nodes<K>, key: K, checkExpire: bool := true) returns (b: bool, failure: Option<Error<K>>)
      requires Valid()
      modifies this`nodes, this`dict, this`id2keys, env`deletes
      ensures Valid()
      ensures key !in old(dict) || old(dict)[key].Shared? || !checkExpire || !env.HasExpired(old(dict)[key].node) ==>
        && b == (key in old(dict)) && failure.None?
        && Snapshot() == old(Snapshot()) && env.deletes == old(env.deletes)
      ensures key in old(dict) && old(dict)[key].Single? && checkExpire && env.HasExpired(old(dict)[key].node) ==>
        var x := old(dict)[key].node;
        var o := RemoveNode(storage, old(Snapshot()), x, env.LookupKeys(x));
        && !b && Snapshot() == o.state
        && failure == (if o.failure.Some? && !o.failure.value.IsKeyError() then o.failure else None)
        && env.deletes == old(env.deletes) + if o.failure.None? then multiset{x} else multiset{}
    {
      if key !in dict {
        return false, None;
      }
      var e := dict[key];
      if e.Shared? {
        return true, None;
      }
      if checkExpire && env.HasExpired(e.node) {
        failure := Remove(env, e.node);
        if failure.Some? && failure.value.IsKeyError() {
          failure := None;
        }
        return false, failure;
      }
      return true, None;
    }

    /**
     * `lookup(key, update, check_expire)`: an absent key answers None; a
     * shared collection is returned as it is; an expired node is removed, and
     * yet it is still updated and returned. A KeyError raised by that removal
     * makes the answer None; any other exception escapes (failure).
     */
    method Lookup(env: Nodes<K>, key: K, update: bool := true, checkExpire: bool := true) returns (r: Option<Entry>, failure: Option<Error<K>>)
      requires Valid()
      modifies this`nodes, this`dict, this`id2keys, env`deletes, env`updates
      ensures Valid()
      ensures key !in old(dict) ==>
        && r.None? && failure.None?
        && Snapshot() == old(Snapshot()) && env.deletes == old(env.deletes) && env.updates == old(env.updates)
      ensures key in old(dict) && old(dict)[key].Shared? ==>
        && r == Some(old(dict)[key]) && failure.None?
        && Snapshot() == old(Snapshot()) && env.deletes == old(env.deletes) && env.updates == old(env.updates)
      ensures key in old(dict) && old(dict)[key].Single? && !(checkExpire && env.HasExpired(old(dict)[key].node)) ==>
        var x := old(dict)[key].node;
        && r == Some(Single(x)) && failure.None?
        && Snapshot() == old(Snapshot()) && env.deletes == old(env.deletes)
        && env.updates == old(env.updates) + if update then multiset{x} else multiset{}
      ensures key in old(dict) && old(dict)[key].Single? && checkExpire && env.HasExpired(old(dict)[key].node) ==>
        var x := old(dict)[key].node;
        var o := RemoveNode(storage, old(Snapshot()), x, env.LookupKeys(x));
        && Snapshot() == o.state
        && env.deletes == old(env.deletes) + (if o.failure.None? then multiset{x} else multiset{})
        && (o.failure.None? ==> r == Some(Single(x)) && failure.None?)
        && (o.failure.None? ==> env.updates == old(env.updates) + if update then multiset{x} else multiset{})
        && (o.failure.Some? ==> r.None? && env.updates == old(env.updates))
        && (o.failure.Some? ==> failure == if o.failure.value.IsKeyError() then None else o.failure)
    {
      if key !in dict {
        return None, None;
      }
      var e := dict[key];
      if e.Shared? {
        return Some(e), None;
      }
      if checkExpire && env.HasExpired(e.node) {
        failure := Remove(env, e.node);
        if failure.Some? {
          if failure.value.IsKeyError() {
            failure := None;
          }
          return None, failure;
        }
      }
      if update {
        env.Update(e.node);
      }
      return Some(e), None;
    }

    /**
     * One turn of the removal loop: the removal of hs[i] either ends the loop
     * or leaves the rest to do. nodes0 and deletes0 are the storage and the
     * delete-hook count when the loop began; what the loop has removed so far
     * is hs[..i].
     */
    method RemoveNext(env: Nodes<K>, hs: seq<Handle>, i: nat, callback: bool, ghost nodes0: multiset<Handle>, ghost deletes0: multiset<Handle>)
      returns (failure: Option<Error<K>>)
      requires Valid() && i < |hs|
      requires multiset(nodes) + multiset(hs[..i]) == nodes0
      requires callback ==> env.deletes == deletes0 + multiset(hs[..i])
      requires !callback ==> env.deletes == deletes0
      modifies this`nodes, this`dict, this`id2keys, env`deletes
      ensures Valid()
      ensures failure.Some? ==> Outcome(Snapshot(), failure) == RemoveEach(storage, old(Snapshot()), env.keysOf, hs[i..])
      ensures failure.None? ==> RemoveEach(storage, Snapshot(), env.keysOf, hs[i + 1..]) == RemoveEach(storage, old(Snapshot()), env.keysOf, hs[i..])
      ensures failure.None? ==> multiset(nodes) + multiset(hs[..i + 1]) == nodes0
      ensures failure.None? && callback ==> env.deletes == deletes0 + multiset(hs[..i + 1])
      ensures failure.Some? && callback ==> env.deletes == deletes0 + (nodes0 - multiset(nodes))
      ensures !callback ==> env.deletes == deletes0
    {
      RemoveEachFirst(storage, Snapshot(), env.keysOf, hs[i..]);
      assert hs[i..][1..] == hs[i + 1..];
      ghost var before := nodes;
      failure := Remove(env, hs[i], callback);
      if failure.Some? {
        RemovedAreGone(nodes0, multiset(nodes), multiset(hs[..i]));
      } else {
        PrefixMultiset(hs, i);
        RemovedOneMore(nodes0, multiset(before), multiset(nodes), multiset(hs[..i]), hs[i]);
      }
    }

    /**
     * The loop of `removeall`: `remove(node, callback)` for each node of hs
     * in turn, stopping at the first exception. The delete hook has run
     * exactly for the nodes that left the storage.
     */
    method RemoveEachOf(env: Nodes<K>, hs: seq<Handle>, callback: bool) returns (failure: Option<Error<K>>)
      requires Valid()
      modifies this`nodes, this`dict, this`id2keys, env`deletes
      ensures Valid()
      ensures Outcome(Snapshot(), failure) == RemoveEach(storage, old(Snapshot()), env.keysOf, hs)
      ensures failure.None? && callback ==> env.deletes == old(env.deletes) + multiset(hs)
      ensures callback ==> env.deletes == old(env.deletes) + (multiset(old(nodes)) - multiset(nodes))
      ensures !callback ==> env.deletes == old(env.deletes)
    {
      ghost var target := RemoveEach(storage, Snapshot(), env.keysOf, hs);
      var i := 0;
      while i < |hs|
        invariant 0 <= i <= |hs|
        invariant Valid()
        invariant target == RemoveEach(storage, Snapshot(), env.keysOf, hs[i..])
        invariant multiset(nodes) + multiset(hs[..i]) == multiset(old(nodes))
        invariant callback ==> env.deletes == old(env.deletes) + multiset(hs[..i])
        invariant !callback ==> env.deletes == old(env.deletes)
      {
        failure := RemoveNext(env, hs, i, callback, multiset(old(nodes)), old(env.deletes));
        if failure.Some? {
          return;
        }
        i := i + 1;
      }
      assert hs[..i] == hs;
      RemovedAreGone(multiset(old(nodes)), multiset(nodes), multiset(hs));
      return None;
    }

    /**
     * `removeall(callback)`: removes every stored node in turn, then clears
     * the three structures. An exception stops the loop and escapes.
     */
    method RemoveAll(env: Nodes<K>, callback: bool := true) returns (failure: Option<Error<K>>)
      requires Valid()
      modifies this`nodes, this`dict, this`id2keys, env`deletes
      ensures Valid()
      ensures failure == RemoveEach(storage, old(Snapshot()), env.keysOf, old(nodes)).failure
      ensures failure.Some? ==> Snapshot() == RemoveEach(storage, old(Snapshot()), env.keysOf, old(nodes)).state
      ensures failure.None? ==> Snapshot() == State([], map[], map[])
      ensures failure.None? && callback ==> env.deletes == old(env.deletes) + multiset(old(nodes))
      ensures failure.Some? && callback ==> env.deletes == old(env.deletes) + (multiset(old(nodes)) - multiset(nodes))
      ensures !callback ==> env.deletes == old(env.deletes)
    {
      var all := GetAll();
      failure := RemoveEachOf(env, all, callback);
      if failure.Some? {
        return;
      }
      id2keys := map[];
      dict := map[];
      nodes := [];
    }

    /** `updatekeys(node)`. */
    method UpdateKeys(env: Nodes<K>, h: Handle) returns (failure: Option<Error<K>>)
      requires Valid()
      modifies this`dict, this`id2keys
      ensures Valid()
      ensures Outcome(Snapshot(), failure) == UpdateNodeKeys(storage, old(Snapshot()), h, env.LookupKeys(h))
    {
      if h !in id2keys {
        return Some(UnknownNode(h));
      }
      var oldKeys := id2keys[h];
      var newKeys := env.LookupKeys(h);
      failure := RemoveLookupKeys(h, oldKeys);
      if failure.Some? {
        return;
      }
      id2keys := id2keys - {h};
      failure := AddLookupKeys(h, newKeys);
      if failure.Some? {
        return;
      }
      id2keys := id2keys[h := newKeys];
    }

    /**
     * `len(container)`: the number of stored nodes, each counted once; on a
     * consistent container also the number of recorded nodes.
     */
    function Length(): (n: nat)
      reads this
      ensures n == |nodes|
      ensures Valid() ==> n == |Members(nodes)|
      ensures Consistent(storage, Snapshot()) ==> n == |id2keys|
    {
      CountWhenConsistent(storage, Snapshot());
      |nodes|
    }
  }

  /**
   * The `__main__` block on any two distinct key names: two ContainerNodes
   * added to a 'set' container, then `removeall()`; the container ends empty.
   */
  method DemoRun<K(==)>(k1: K, k2: K) returns (added1: Option<Error<K>>, added2: Option<Error<K>>, cleared: Option<Error<K>>, n: nat)
    requires k1 != k2
    ensures added1.None? && added2.None? && cleared.None? && n == 0
  {
    var r := Container<K>.New();
    var ct := r.value;
    var env := new Nodes<K>();
    var cn1 := env.NewContainerNode(k1);
    var cn2 := env.NewContainerNode(k2);
    assert env.LookupKeys(cn1) == [LookupKey(k1, true)];
    assert env.LookupKeys(cn2) == [LookupKey(k2, true)];
    TwoUniqueNodes(ct.storage, cn1, cn2, k1, k2, env.keysOf);
    added1 := ct.Add(env, cn1);
    added2 := ct.Add(env, cn2);
    cleared := ct.RemoveAll(env);
    n := ct.Length();
  }

  /** The `__main__` block itself, with the nodes 'cn1' and 'cn2'. */
  method Demo() returns (added1: Option<Error<string>>, added2: Option<Error<string>>, cleared: Option<Error<string>>, n: nat)
    ensures added1.None? && added2.None? && cleared.None? && n == 0
  {
    assert "cn1" != "cn2" by {
      assert "cn1"[2] != "cn2"[2];
    }
    added1, added2, cleared, n := DemoRun("cn1", "cn2");
  }

  /** What was taken out of a multiset is what it lost. */
  lemma RemovedAreGone<T>(all: multiset<T>, left: multiset<T>, removed: multiset<T>)
    requires left + removed == all
    ensures all - left == removed
  {
  }

  /** Taking one more element x out of what is left keeps the account of what was taken. */
  lemma RemovedOneMore<T>(all: multiset<T>, left: multiset<T>, left1: multiset<T>, removed: multiset<T>, x: T)
    requires left + removed == all && x in left && left1 == left - multiset{x}
    ensures left1 + (removed + multiset{x}) == all
  {
  }

  /** One more element of a prefix, as a multiset. */
  lemma PrefixMultiset<T>(c: seq<T>, i: nat)
    requires i < |c|
    ensures multiset(c[..i + 1]) == multiset(c[..i]) + multiset{c[i]}
  {
    assert c[..i + 1] == c[..i] + [c[i]];
  }
}
