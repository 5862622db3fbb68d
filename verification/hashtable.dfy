/**
 * The chained HashTable of hashtable.py: a fixed array of buckets, each a
 * list of [key, value] pairs scanned linearly, a list of the keys in
 * insertion order and a size counter, all updated in place.
 */
module HashTable {
  import opened Wrappers

  /** The exceptions the table raises. */
  datatype TableError<K> =
    | KeyExists(key: K)       // KeyError of add without overwrite
    | KeyNotFound(key: K)     // KeyError of get and remove
    | NoBuckets(buckets: int) // ZeroDivisionError (0 buckets) or IndexError (fewer) of every lookup

  /** Where `_lookup_by_key` looked, and at which position of that bucket it found the key. */
  datatype Slot = Slot(row: nat, item: Option<nat>)

  /** Entry counts of all buckets together. */
  function Total<K, V>(rows: seq<seq<(K, V)>>): nat {
    if |rows| == 0 then 0 else |rows[0]| + Total(rows[1..])
  }

  /** Replacing one bucket changes the total by the change in that bucket's length. */
  lemma {:induction false} TotalUpdate<K, V>(rows: seq<seq<(K, V)>>, b: nat, row: seq<(K, V)>)
    requires b < |rows|
    ensures Total(rows[b := row]) + |rows[b]| == Total(rows) + |row|
  {
    if b > 0 {
      assert rows[b := row][1..] == rows[1..][b - 1 := row];
      TotalUpdate(rows[1..], b - 1, row);
    } else {
      assert rows[b := row][1..] == rows[1..];
    }
  }

  /** Buckets that are all empty hold nothing. */
  lemma {:induction false} TotalEmpty<K, V>(rows: seq<seq<(K, V)>>)
    requires forall b :: 0 <= b < |rows| ==> rows[b] == []
    ensures Total(rows) == 0
  {
    if |rows| > 0 {
      TotalEmpty(rows[1..]);
    }
  }

  /** No element occurs twice. */
  ghost predicate NoRepeats<T>(s: seq<T>) {
    forall i, j :: 0 <= i < j < |s| ==> s[i] != s[j]
  }

  /** `list.remove(x)` on a list that holds x: drops its first occurrence. */
  function RemoveFirst<T(==)>(s: seq<T>, x: T): (r: seq<T>)
    requires x in s
    ensures |r| == |s| - 1
    ensures forall y :: y in r ==> y in s
    ensures forall y :: y in s && y != x ==> y in r
  {
    if s[0] == x then s[1..] else [s[0]] + RemoveFirst(s[1..], x)
  }

  /** Removing an element that does not occur before index i cuts index i out. */
  lemma {:induction false} RemoveFirstAt<T>(s: seq<T>, i: nat)
    requires i < |s| && s[i] !in s[..i]
    ensures RemoveFirst(s, s[i]) == s[..i] + s[i + 1..]
  {
    if i > 0 {
      assert s[0] != s[i] by { assert s[0] in s[..i]; }
      assert s[1..][i - 1] == s[i] && s[1..][..i - 1] == s[1..i];
      RemoveFirstAt(s[1..], i - 1);
      assert [s[0]] + s[1..i] == s[..i];
      assert s[1..][i..] == s[i + 1..];
    }
  }

  /** On a sequence without repeats, removing the first occurrence removes the element altogether. */
  lemma {:induction false} RemoveFirstNoRepeats<T>(s: seq<T>, x: T)
    requires x in s && NoRepeats(s)
    ensures NoRepeats(RemoveFirst(s, x)) && x !in RemoveFirst(s, x)
  {
    if s[0] != x {
      assert NoRepeats(s[1..]) by {
        forall i, j | 0 <= i < j < |s[1..]| ensures s[1..][i] != s[1..][j] {
          assert s[1..][i] == s[i + 1] && s[1..][j] == s[j + 1];
        }
      }
      RemoveFirstNoRepeats(s[1..], x);
      var r := RemoveFirst(s, x);
      forall i, j | 0 <= i < j < |r| ensures r[i] != r[j] {
        if i == 0 {
          assert r[j] in RemoveFirst(s[1..], x);
        }
      }
    }
  }

  /** A table of `buckets` chained buckets over the hash function `hash`. */
  class HashTable<K(==), V> {
    const buckets: int
    const hash: K -> int
    var data: array<seq<(K, V)>>
    var order: seq<K>
    var size: int

    /** What the table maps each stored key to. */
    ghost var Contents: map<K, V>

    /** `_hash(key, buckets)`: the bucket of a key; Python's `%` by a positive divisor is never negative. */
    function Index(key: K): (b: nat)
      requires buckets > 0
      ensures b < buckets
    {
      hash(key) % buckets
    }

    /** Every pair sits in its key's bucket and is what the table maps its key to. */
    ghost predicate Placed(rows: seq<seq<(K, V)>>, c: map<K, V>) {
      forall b, j :: 0 <= b < |rows| && 0 <= j < |rows[b]| ==>
        buckets > 0 && Index(rows[b][j].0) == b && rows[b][j].0 in c && c[rows[b][j].0] == rows[b][j].1
    }

    /** A key occurs at most once in a bucket. */
    ghost predicate Unique(rows: seq<seq<(K, V)>>) {
      forall b, i, j :: 0 <= b < |rows| && 0 <= i < j < |rows[b]| ==> rows[b][i].0 != rows[b][j].0
    }

    /** Every mapped key has its pair in its bucket. */
    ghost predicate Indexed(rows: seq<seq<(K, V)>>, c: map<K, V>) {
      forall k :: k in c ==> buckets > 0 && Index(k) < |rows| && (k, c[k]) in rows[Index(k)]
    }

    /** The key list holds exactly the mapped keys, once each. */
    ghost predicate Listed(c: map<K, V>, order: seq<K>) {
      && (forall k :: k in c ==> k in order)
      && (forall k :: k in order ==> k in c)
      && NoRepeats(order)
    }

    /** The invariant of a table whose buckets are rows, whose key list is order and whose counter is size. */
    ghost predicate Inv(rows: seq<seq<(K, V)>>, c: map<K, V>, order: seq<K>, size: int) {
      && |rows| == (if buckets > 0 then buckets else 0)
      && Placed(rows, c)
      && Unique(rows)
      && Indexed(rows, c)
      && Listed(c, order)
      && size == |order| == Total(rows)
    }

    ghost predicate Valid()
      reads this, data
    {
      Inv(data[..], Contents, order, size)
    }

    /** `HashTable(buckets)`: every bucket empty. */
    constructor (hash: K -> int, buckets: int := 1024)
      ensures Valid() && fresh(data)
      ensures this.buckets == buckets && this.hash == hash
      ensures Contents == map[] && order == [] && size == 0
      ensures forall b :: 0 <= b < data.Length ==> data[b] == []
    {
      this.buckets := buckets;
      this.hash := hash;
      data := new seq<(K, V)>[if buckets > 0 then buckets else 0](_ => []);
      order := [];
      size := 0;
      Contents := map[];
      new;
      TotalEmpty(data[..]);
    }

    /**
     * `_lookup_by_key(key)`: the bucket of key and the position of the pair
     * holding key in it, found by a linear scan.
     */
    method LookupByKey(key: K) returns (r: Result<Slot, TableError<K>>)
      requires Valid()
      ensures buckets <= 0 <==> r.Err?
      ensures r.Err? ==> r.error == NoBuckets(buckets)
      ensures r.Ok? ==> r.value.row == Index(key)
      ensures r.Ok? ==> (r.value.item.Some? <==> key in Contents)
      ensures r.Ok? && r.value.item.Some? ==>
        var j := r.value.item.value;
        j < |data[r.value.row]| && data[r.value.row][j] == (key, Contents[key])
    {
      if buckets <= 0 {
        return Err(NoBuckets(buckets));
      }
      var index := Index(key);
      var row := data[index];
      var j := 0;
      while j < |row|
        invariant 0 <= j <= |row|
        invariant forall i :: 0 <= i < j ==> row[i].0 != key
      {
        if row[j].0 == key {
          return Ok(Slot(index, Some(j)));
        }
        j := j + 1;
      }
      return Ok(Slot(index, None));
    }

    /**
     * `add(key, node, overwrite)`: a new key is appended to its bucket and to
     * the key list; a present key has its value replaced in place, or raises
     * when overwrite is False. Returns the table itself.
     */
    method Add(key: K, value: V, overwrite: bool := true) returns (r: Result<HashTable<K, V>, TableError<K>>)
      requires Valid()
      modifies this, data
      ensures Valid() && data == old(data)
      ensures buckets <= 0 ==> r == Err(NoBuckets(buckets))
      ensures r.Ok? ==> r.value == this
      ensures buckets > 0 && key in old(Contents) && !overwrite ==> r == Err(KeyExists(key))
      ensures r.Err? ==> Contents == old(Contents) && order == old(order) && size == old(size) && data[..] == old(data[..])
      ensures buckets > 0 && (key !in old(Contents) || overwrite) ==> r.Ok?
      ensures r.Ok? ==> Contents == old(Contents)[key := value]
      ensures r.Ok? && key in old(Contents) ==> order == old(order) && size == old(size)
      ensures r.Ok? && key in old(Contents) ==> |data[Index(key)]| == old(|data[Index(key)]|)
      ensures r.Ok? && key !in old(Contents) ==> order == old(order) + [key] && size == old(size) + 1
      ensures r.Ok? && key !in old(Contents) ==> data[Index(key)] == old(data[Index(key)]) + [(key, value)]
      ensures r.Ok? ==> forall b :: 0 <= b < data.Length && b != Index(key) ==> data[b] == old(data[b])
    {
      var found := LookupByKey(key);
      if found.Err? {
        return Err(found.error);
      }
      var index := found.value.row;
      if found.value.item.Some? && !overwrite {
        return Err(KeyExists(key));
      } else if found.value.item.Some? {
        var j := found.value.item.value;
        OverwriteInv(data[..], Contents, order, size, j, key, value);
        data[index] := data[index][j := (key, value)];
        assert data[..] == old(data[..])[index := old(data[index])[j := (key, value)]];
        Contents := Contents[key := value];
      } else {
        AppendInv(data[..], Contents, order, size, key, value);
        data[index] := data[index] + [(key, value)];
        assert data[..] == old(data[..])[index := old(data[index]) + [(key, value)]];
        size := size + 1;
        order := order + [key];
        Contents := Contents[key := value];
      }
      return Ok(this);
    }

    /** Replacing the value of a present key in place keeps the invariant. */
    lemma OverwriteInv(rows: seq<seq<(K, V)>>, c: map<K, V>, order: seq<K>, size: int, j: nat, key: K, value: V)
      requires Inv(rows, c, order, size) && buckets > 0
      requires j < |rows[Index(key)]| && rows[Index(key)][j].0 == key
      ensures key in c
      ensures Inv(rows[Index(key) := rows[Index(key)][j := (key, value)]], c[key := value], order, size)
    {
      var prev := rows[Index(key)];
      var row := prev[j := (key, value)];
      assert row[j] == (key, value);
      forall i | 0 <= i < |row| ensures row[i].0 == prev[i].0 && (i != j ==> row[i] == prev[i] && prev[i].0 != key) {
        if i != j {
          assert prev[i].0 != prev[j].0;
        }
      }
      forall p | p in prev && p.0 != key ensures p in row {
        var i :| 0 <= i < |prev| && prev[i] == p;
        assert row[i] == p;
      }
      TotalUpdate(rows, Index(key), row);
      ReplacePlaced(rows, c, Index(key), row, key, value);
      ReplaceUnique(rows, Index(key), row);
      ReplaceIndexed(rows, c, Index(key), row, key, value);
    }

    /** Appending the pair of an absent key to its bucket and the key to the key list keeps the invariant. */
    lemma AppendInv(rows: seq<seq<(K, V)>>, c: map<K, V>, order: seq<K>, size: int, key: K, value: V)
      requires Inv(rows, c, order, size) && buckets > 0 && key !in c
      ensures Inv(rows[Index(key) := rows[Index(key)] + [(key, value)]], c[key := value], order + [key], size + 1)
    {
      var prev := rows[Index(key)];
      var row := prev + [(key, value)];
      assert row[|row| - 1] == (key, value);
      forall i | 0 <= i < |prev| ensures row[i] == prev[i] && prev[i].0 != key {
        assert prev[i].0 in c;
      }
      TotalUpdate(rows, Index(key), row);
      ReplacePlaced(rows, c, Index(key), row, key, value);
      ReplaceUnique(rows, Index(key), row);
      ReplaceIndexed(rows, c, Index(key), row, key, value);
    }

    /**
     * A bucket rewritten so that it holds (key, value) and otherwise pairs
     * of the old bucket other than key keeps every pair where it belongs.
     */
    lemma ReplacePlaced(rows: seq<seq<(K, V)>>, c: map<K, V>, b: nat, row: seq<(K, V)>, key: K, value: V)
      requires Placed(rows, c) && buckets > 0 && b == Index(key) && b < |rows|
      requires forall i :: 0 <= i < |row| ==> row[i] == (key, value) || (row[i] in rows[b] && row[i].0 != key)
      ensures Placed(rows[b := row], c[key := value])
    {
      var rows': seq<seq<(K, V)>> := rows[b := row];
      forall b', i | 0 <= b' < |rows'| && 0 <= i < |rows'[b']|
        ensures Index(rows'[b'][i].0) == b' && rows'[b'][i].0 in c[key := value] && c[key := value][rows'[b'][i].0] == rows'[b'][i].1
      {
        if b' == b && row[i] != (key, value) {
          var i0 :| 0 <= i0 < |rows[b]| && rows[b][i0] == row[i];
        }
      }
    }

    /** A bucket whose keys stay pairwise distinct keeps uniqueness. */
    lemma ReplaceUnique(rows: seq<seq<(K, V)>>, b: nat, row: seq<(K, V)>)
      requires Unique(rows) && b < |rows|
      requires forall i, i' :: 0 <= i < i' < |row| ==> row[i].0 != row[i'].0
      ensures Unique(rows[b := row])
    {
    }

    /** A bucket that still holds every other pair of the old bucket, plus (key, value), keeps every key reachable. */
    lemma ReplaceIndexed(rows: seq<seq<(K, V)>>, c: map<K, V>, b: nat, row: seq<(K, V)>, key: K, value: V)
      requires Indexed(rows, c) && buckets > 0 && b == Index(key) && b < |rows|
      requires (key, value) in row
      requires forall p :: p in rows[b] && p.0 != key ==> p in row
      ensures Indexed(rows[b := row], c[key := value])
    {
    }

    /** Dropping the pair of a present key from its bucket and the key from the key list keeps the invariant. */
    lemma DropInv(rows: seq<seq<(K, V)>>, c: map<K, V>, order: seq<K>, size: int, j: nat, key: K)
      requires Inv(rows, c, order, size) && buckets > 0
      requires j < |rows[Index(key)]| && rows[Index(key)][j].0 == key
      ensures key in c && key in order
      ensures Inv(rows[Index(key) := rows[Index(key)][..j] + rows[Index(key)][j + 1..]], c - {key}, RemoveFirst(order, key), size - 1)
    {
      var row: seq<(K, V)> := rows[Index(key)];
      var rest: seq<(K, V)> := row[..j] + row[j + 1..];
      TotalUpdate(rows, Index(key), rest);
      RemoveFirstNoRepeats(order, key);
      DropPlaced(rows, c, j, key);
      DropUnique(rows, j, key);
      DropIndexed(rows, c, j, key);
    }

    lemma DropPlaced(rows: seq<seq<(K, V)>>, c: map<K, V>, j: nat, key: K)
      requires Placed(rows, c) && Unique(rows) && buckets > 0 && Index(key) < |rows|
      requires j < |rows[Index(key)]| && rows[Index(key)][j].0 == key
      ensures Placed(rows[Index(key) := rows[Index(key)][..j] + rows[Index(key)][j + 1..]], c - {key})
    {
      var index := Index(key);
      var row: seq<(K, V)> := rows[index];
      var rest: seq<(K, V)> := row[..j] + row[j + 1..];
      var rows': seq<seq<(K, V)>> := rows[index := rest];
      forall b, i | 0 <= b < |rows'| && 0 <= i < |rows'[b]|
        ensures Index(rows'[b][i].0) == b && rows'[b][i].0 in c - {key} && (c - {key})[rows'[b][i].0] == rows'[b][i].1
      {
        if b == index {
          var i0 := if i < j then i else i + 1;
          assert rest[i] == row[i0];
          assert row[i0].0 != row[j].0;
        }
      }
    }

    lemma DropUnique(rows: seq<seq<(K, V)>>, j: nat, key: K)
      requires Unique(rows) && buckets > 0 && Index(key) < |rows| && j < |rows[Index(key)]|
      ensures Unique(rows[Index(key) := rows[Index(key)][..j] + rows[Index(key)][j + 1..]])
    {
      var index := Index(key);
      var row: seq<(K, V)> := rows[index];
      var rest: seq<(K, V)> := row[..j] + row[j + 1..];
      var rows': seq<seq<(K, V)>> := rows[index := rest];
      forall b, i, i' | 0 <= b < |rows'| && 0 <= i < i' < |rows'[b]| ensures rows'[b][i].0 != rows'[b][i'].0 {
        if b == index {
          var i0, i1 := if i < j then i else i + 1, if i' < j then i' else i' + 1;
          assert rest[i] == row[i0] && rest[i'] == row[i1];
        }
      }
    }

    lemma DropIndexed(rows: seq<seq<(K, V)>>, c: map<K, V>, j: nat, key: K)
      requires Indexed(rows, c) && Placed(rows, c) && Unique(rows) && buckets > 0 && Index(key) < |rows|
      requires j < |rows[Index(key)]| && rows[Index(key)][j].0 == key
      ensures Indexed(rows[Index(key) := rows[Index(key)][..j] + rows[Index(key)][j + 1..]], c - {key})
    {
      var index := Index(key);
      var row: seq<(K, V)> := rows[index];
      var rest: seq<(K, V)> := row[..j] + row[j + 1..];
      var rows': seq<seq<(K, V)>> := rows[index := rest];
      forall k | k in c - {key} ensures (k, (c - {key})[k]) in rows'[Index(k)] {
        var i :| 0 <= i < |rows[Index(k)]| && rows[Index(k)][i] == (k, c[k]);
        if Index(k) == index {
          assert i != j;
          var i0 := if i < j then i else i - 1;
          assert rest[i0] == row[i];
        } else {
          assert rows'[Index(k)][i] == (k, c[k]);
        }
      }
    }

    /** `get(key)`: the value last stored under key; KeyError when absent. */
    method Get(key: K) returns (r: Result<V, TableError<K>>)
      requires Valid()
      ensures buckets <= 0 ==> r == Err(NoBuckets(buckets))
      ensures buckets > 0 ==> (r.Ok? <==> key in Contents)
      ensures r.Ok? ==> key in Contents && r.value == Contents[key]
      ensures buckets > 0 && key !in Contents ==> r == Err(KeyNotFound(key))
    {
      var found := LookupByKey(key);
      if found.Err? {
        return Err(found.error);
      }
      if found.value.item.None? {
        return Err(KeyNotFound(key));
      }
      return Ok(data[found.value.row][found.value.item.value].1);
    }

    /**
     * `remove(key)`: drops the key's pair from its bucket and the key from
     * the key list, and returns its value; KeyError with no change when absent.
     */
    method Remove(key: K) returns (r: Result<V, TableError<K>>)
      requires Valid()
      modifies this, data
      ensures Valid() && data == old(data)
      ensures buckets <= 0 ==> r == Err(NoBuckets(buckets))
      ensures buckets > 0 ==> (r.Ok? <==> key in old(Contents))
      ensures buckets > 0 && key !in old(Contents) ==> r == Err(KeyNotFound(key))
      ensures r.Err? ==> Contents == old(Contents) && order == old(order) && size == old(size) && data[..] == old(data[..])
      ensures r.Ok? ==> key in old(Contents) && r.value == old(Contents)[key]
      ensures r.Ok? ==> Contents == old(Contents) - {key} && key in old(order) && order == RemoveFirst(old(order), key)
      ensures r.Ok? ==> size == old(size) - 1 && |data[Index(key)]| == old(|data[Index(key)]|) - 1
      ensures r.Ok? ==> forall b :: 0 <= b < data.Length && b != Index(key) ==> data[b] == old(data[b])
    {
      var found := LookupByKey(key);
      if found.Err? {
        return Err(found.error);
      }
      if found.value.item.None? {
        return Err(KeyNotFound(key));
      }
      var index, j := found.value.row, found.value.item.value;
      var value := data[index][j].1;
      DropInv(data[..], Contents, order, size, j, key);
      data[index] := data[index][..j] + data[index][j + 1..];
      assert data[..] == old(data[..])[index := old(data[index])[..j] + old(data[index])[j + 1..]];
      order := RemoveFirst(order, key);
      size := size - 1;
      Contents := Contents - {key};
      return Ok(value);
    }

    /** `keys()`: the stored keys, each once, in the order they were first added. */
    method Keys() returns (r: seq<K>)
      requires Valid()
      ensures r == order && NoRepeats(r)
      ensures forall k :: k in r <==> k in Contents
    {
      r := order;
    }

    /** `table[key] = value`: add with overwrite. */
    method SetItem(key: K, value: V) returns (failure: Option<TableError<K>>)
      requires Valid()
      modifies this, data
      ensures Valid() && data == old(data)
      ensures failure.None? <==> buckets > 0
      ensures failure.None? ==> Contents == old(Contents)[key := value]
      ensures failure.None? ==> order == if key in old(Contents) then old(order) else old(order) + [key]
      ensures failure.Some? ==> Contents == old(Contents) && order == old(order)
    {
      var r := Add(key, value, true);
      failure := if r.Ok? then None else Some(r.error);
    }

    /** `table[key]`: get. */
    method GetItem(key: K) returns (r: Result<V, TableError<K>>)
      requires Valid()
      ensures r.Ok? <==> buckets > 0 && key in Contents
      ensures r.Ok? ==> r.value == Contents[key]
    {
      r := Get(key);
    }

    /** `del table[key]`: remove. */
    method DelItem(key: K) returns (r: Result<V, TableError<K>>)
      requires Valid()
      modifies this, data
      ensures Valid() && data == old(data)
      ensures r.Ok? <==> buckets > 0 && key in old(Contents)
      ensures r.Ok? ==> r.value == old(Contents)[key] && Contents == old(Contents) - {key}
      ensures r.Ok? ==> key in old(order) && order == RemoveFirst(old(order), key)
      ensures r.Err? ==> Contents == old(Contents) && order == old(order)
    {
      r := Remove(key);
    }

    /** `len(table)`: the number of stored keys. */
    function Length(): (n: int)
      reads this, data
      requires Valid()
      ensures n == |order| == Total(data[..])
      ensures n == |Contents|
    {
      LengthIsCount();
      size
    }

    lemma LengthIsCount()
      requires Valid()
      ensures |Contents| == |order|
    {
      DistinctCount(order);
      assert Contents.Keys == Elements(order);
    }
  }

  /** The elements of a sequence. */
  function Elements<T>(s: seq<T>): set<T> {
    set x | x in s
  }

  /** A sequence without repeats has as many elements as its set. */
  lemma {:induction false} DistinctCount<T>(s: seq<T>)
    requires NoRepeats(s)
    ensures |Elements(s)| == |s|
  {
    if |s| > 0 {
      DistinctCount(s[1..]);
      assert s[0] !in Elements(s[1..]);
      assert Elements(s) == Elements(s[1..]) + {s[0]};
    }
  }

  /** Values of the demonstration: Python mixes integers and strings. */
  datatype Item = Num(n: int) | Text(t: string)

  /** One add of a key not yet stored: it goes to the end of the key list. */
  method DemoAddNew<K(==)>(ht: HashTable<K, Item>, key: K, value: Item)
    requires ht.Valid() && ht.buckets > 0 && key !in ht.order
    modifies ht, ht.data
    ensures ht.Valid() && ht.data == old(ht.data) && ht.order == old(ht.order) + [key]
    ensures ht.Contents == old(ht.Contents)[key := value]
  {
    var r := ht.Add(key, value);
  }

  /** One assignment `ht[key] = value` to a key not yet stored: it goes to the end of the key list. */
  method DemoAssignNew<K(==)>(ht: HashTable<K, Item>, key: K, value: Item)
    requires ht.Valid() && ht.buckets > 0 && key !in ht.order
    modifies ht, ht.data
    ensures ht.Valid() && ht.data == old(ht.data) && ht.order == old(ht.order) + [key]
    ensures ht.Contents == old(ht.Contents)[key := value]
  {
    var f := ht.SetItem(key, value);
  }

  /** One assignment to a stored key, read back: the key list does not change and get finds the new value. */
  method DemoOverwrite<K(==)>(ht: HashTable<K, Item>, key: K, value: Item) returns (got: Result<Item, TableError<K>>)
    requires ht.Valid() && ht.buckets > 0 && key in ht.order
    modifies ht, ht.data
    ensures ht.Valid() && ht.data == old(ht.data) && ht.order == old(ht.order)
    ensures ht.Contents == old(ht.Contents)[key := value]
    ensures got == Ok(value)
  {
    var f := ht.SetItem(key, value);
    got := ht.Get(key);
  }

  /** One removal of the key at index i of the key list: that index is cut out of the list. */
  method DemoDelete<K(==)>(ht: HashTable<K, Item>, i: nat, key: K)
    requires ht.Valid() && ht.buckets > 0 && i < |ht.order| && ht.order[i] == key && key !in ht.order[..i]
    modifies ht, ht.data
    ensures ht.Valid() && ht.data == old(ht.data) && ht.order == old(ht.order[..i] + ht.order[i + 1..])
    ensures ht.Contents == old(ht.Contents) - {key}
  {
    RemoveFirstAt(ht.order, i);
    var v := ht.DelItem(key);
  }

  /** One add without overwrite of a stored key, then a read: KeyExists, and the stored value is kept. */
  method DemoReadd<K(==)>(ht: HashTable<K, Item>, key: K, value: Item)
      returns (r: Result<HashTable<K, Item>, TableError<K>>, got: Result<Item, TableError<K>>)
    requires ht.Valid() && ht.buckets > 0 && key in ht.order
    modifies ht, ht.data
    ensures ht.Valid() && ht.data == old(ht.data) && ht.order == old(ht.order)
    ensures r == Err(KeyExists(key))
    ensures key in old(ht.Contents) && got == Ok(old(ht.Contents)[key])
  {
    r := ht.Add(key, value, false);
    got := ht.Get(key);
  }

  /** The `__main__` block's first three adds, through `add`. */
  method DemoAddThree<K(==)>(ht: HashTable<K, Item>, one: K, two: K, three: K)
    requires ht.Valid() && ht.buckets > 0 && ht.order == []
    requires one != two && one != three && two != three
    modifies ht, ht.data
    ensures ht.Valid() && ht.data == old(ht.data) && ht.order == [one, two, three]
    ensures one in ht.Contents && ht.Contents[one] == Num(1)
  {
    DemoAddPair(ht, one, Num(1), two, Num(2));
    DemoAddNew(ht, three, Num(3));
  }

  /** Two adds of distinct keys not yet stored. */
  method DemoAddPair<K(==)>(ht: HashTable<K, Item>, a: K, va: Item, b: K, vb: Item)
    requires ht.Valid() && ht.buckets > 0 && a !in ht.order && b !in ht.order && a != b
    modifies ht, ht.data
    ensures ht.Valid() && ht.data == old(ht.data) && ht.order == old(ht.order) + [a, b]
    ensures ht.Contents == old(ht.Contents)[a := va][b := vb]
  {
    DemoAddNew(ht, a, va);
    DemoAddNew(ht, b, vb);
  }

  /** The `__main__` block's three adds and its assignment `ht['four'] = 4`. */
  method DemoFill<K(==)>(ht: HashTable<K, Item>, one: K, two: K, three: K, four: K)
    requires ht.Valid() && ht.buckets > 0 && ht.order == []
    requires one != two && one != three && one != four && two != three && two != four && three != four
    modifies ht, ht.data
    ensures ht.Valid() && ht.data == old(ht.data) && ht.order == [one, two, three, four]
    ensures one in ht.Contents && ht.Contents[one] == Num(1)
  {
    DemoAddThree(ht, one, two, three);
    DemoAssignNew(ht, four, Num(4));
  }

  /** The `__main__` block's four insertions and its overwrite of three, read back. */
  method DemoBuild<K(==)>(ht: HashTable<K, Item>, one: K, two: K, three: K, four: K) returns (got: Result<Item, TableError<K>>)
    requires ht.Valid() && ht.buckets > 0 && ht.order == []
    requires one != two && one != three && one != four && two != three && two != four && three != four
    modifies ht, ht.data
    ensures ht.Valid() && ht.data == old(ht.data) && ht.order == [one, two, three, four]
    ensures one in ht.Contents && ht.Contents[one] == Num(1)
    ensures got == Ok(Text("threeeee!"))
  {
    DemoFill(ht, one, two, three, four);
    got := DemoOverwrite(ht, three, Text("threeeee!"));
  }

  /** The `__main__` block's removals of three and then two. */
  method DemoDeletePair<K(==)>(ht: HashTable<K, Item>, one: K, two: K, three: K, four: K)
    requires ht.Valid() && ht.buckets > 0 && ht.order == [one, two, three, four]
    requires one != two && one != three && one != four && two != three && two != four && three != four
    modifies ht, ht.data
    ensures ht.Valid() && ht.data == old(ht.data) && ht.order == [one, four]
    ensures ht.Contents == old(ht.Contents) - {three} - {two}
  {
    DemoDeleteThird(ht, one, two, three, four);
    DemoDeleteSecond(ht, one, two, four);
  }

  /** `del ht['three']` on the keys [one, two, three, four]. */
  method DemoDeleteThird<K(==)>(ht: HashTable<K, Item>, one: K, two: K, three: K, four: K)
    requires ht.Valid() && ht.buckets > 0 && ht.order == [one, two, three, four]
    requires one != three && two != three
    modifies ht, ht.data
    ensures ht.Valid() && ht.data == old(ht.data) && ht.order == [one, two, four]
    ensures ht.Contents == old(ht.Contents) - {three}
  {
    DemoDelete(ht, 2, three);
  }

  /** `ht.remove('two')` on the keys [one, two, four]. */
  method DemoDeleteSecond<K(==)>(ht: HashTable<K, Item>, one: K, two: K, four: K)
    requires ht.Valid() && ht.buckets > 0 && ht.order == [one, two, four]
    requires one != two
    modifies ht, ht.data
    ensures ht.Valid() && ht.data == old(ht.data) && ht.order == [one, four]
    ensures ht.Contents == old(ht.Contents) - {two}
  {
    DemoDelete(ht, 1, two);
  }

  /** The `__main__` block's removals, and its add of one without overwrite, which keeps one's value. */
  method DemoShrink<K(==)>(ht: HashTable<K, Item>, one: K, two: K, three: K, four: K)
      returns (readd: Result<HashTable<K, Item>, TableError<K>>, got: Result<Item, TableError<K>>)
    requires ht.Valid() && ht.buckets > 0 && ht.order == [one, two, three, four]
    requires one != two && one != three && one != four && two != three && two != four && three != four
    requires one in ht.Contents
    modifies ht, ht.data
    ensures ht.Valid() && ht.data == old(ht.data) && ht.order == [one, four]
    ensures readd == Err(KeyExists(one))
    ensures got == Ok(old(ht.Contents)[one])
  {
    DemoDeletePair(ht, one, two, three, four);
    readd, got := DemoReadd(ht, one, Text("oneeee"));
  }

  /**
   * The `__main__` block with any hash function: four keys into two
   * buckets, an overwrite, two removals, and an add without overwrite of a
   * present key, which raises and keeps the stored value.
   */
  method Demo(hash: string -> int)
      returns (len1: int, three: Result<Item, TableError<string>>, len2: int, keys: seq<string>,
               readd: Result<HashTable<string, Item>, TableError<string>>, one: Result<Item, TableError<string>>)
    ensures len1 == 4 && len2 == 2
    ensures three == Ok(Text("threeeee!"))
    ensures keys == ["one", "four"]
    ensures readd == Err(KeyExists("one"))
    ensures one == Ok(Num(1))
  {
    var ht := new HashTable<string, Item>(hash, 2);
    assert "one" != "two" && "one" != "three" && "one" != "four" && "two" != "three" && "two" != "four" && "three" != "four";
    three := DemoBuild(ht, "one", "two", "three", "four");
    len1 := ht.Length();
    readd, one := DemoShrink(ht, "one", "two", "three", "four");
    len2 := ht.Length();
    keys := ht.Keys();
  }
}
