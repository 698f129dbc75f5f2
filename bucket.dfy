/** An ordered key-value bucket: the store every handler works on. It keeps a
    map from string keys to values and answers point reads, writes, deletes and
    ascending scans over the keys that start with a prefix.

    The store's own failures (I/O, a closed database) come from outside: every
    operation takes the set of operations that the environment makes fail. */
module Buckets {
  import opened Order

  datatype Option<+T> = None | Some(value: T)

  /** The error return of a store operation. */
  datatype Result<+T> = Success(value: T) | Failure

  /** One store operation on the bucket called `bucket`. */
  datatype Op =
    | Read(bucket: string, key: string)
    | Write(bucket: string, key: string)
    | Remove(bucket: string, key: string)
    | ScanPrefix(bucket: string, prefix: string)
    | ScanAll(bucket: string)

  /** The operations that fail when attempted. */
  type Faults = set<Op>

  /** A key and its value, as a scan yields them. */
  datatype Item<V> = Item(key: string, value: V)

  function KeysOf<V>(items: seq<Item<V>>): seq<string>
  {
    seq(|items|, i requires 0 <= i < |items| => items[i].key)
  }

  /** The keys of `m` that start with `prefix`. */
  function Matching<V>(m: map<string, V>, prefix: string): set<string>
  {
    set k | k in m && prefix <= k
  }

  /** The entries of `m` whose keys are in `s`, smallest key first. */
  ghost function EntriesOf<V>(m: map<string, V>, s: set<string>): seq<Item<V>>
    requires s <= m.Keys
    decreases |s|
  {
    if s == {} then []
    else
      var k := Least(s);
      [Item(k, m[k])] + EntriesOf(m, s - {k})
  }

  /** What a prefix scan yields: every entry whose key starts with `prefix`,
      in ascending key order. */
  ghost function Entries<V>(m: map<string, V>, prefix: string): seq<Item<V>>
  {
    EntriesOf(m, Matching(m, prefix))
  }

  /** `r` lists exactly the keys of `s`, each once, ascending, each with its
      value in `m`. */
  ghost predicate IsListing<V>(m: map<string, V>, s: set<string>, r: seq<Item<V>>)
  {
    && Ascending(KeysOf(r))
    && (forall k :: k in KeysOf(r) <==> k in s)
    && (forall i :: 0 <= i < |r| ==> r[i].key in m && r[i].value == m[r[i].key])
  }

  lemma {:induction false} EntriesOfIsListing<V>(m: map<string, V>, s: set<string>)
    requires s <= m.Keys
    ensures IsListing(m, s, EntriesOf(m, s))
    ensures |EntriesOf(m, s)| == |s|
    decreases |s|
  {
    if s != {} {
      var k := Least(s);
      var rest := EntriesOf(m, s - {k});
      EntriesOfIsListing(m, s - {k});
      var r := [Item(k, m[k])] + rest;
      assert r == EntriesOf(m, s);
      assert KeysOf(r) == [k] + KeysOf(rest);
      forall i, j | 0 <= i < j < |r|
        ensures Less(KeysOf(r)[i], KeysOf(r)[j])
      {
        if i == 0 {
          assert KeysOf(r)[j] == KeysOf(rest)[j - 1];
          assert KeysOf(rest)[j - 1] in s - {k};
        } else {
          assert KeysOf(r)[i] == KeysOf(rest)[i - 1];
          assert KeysOf(r)[j] == KeysOf(rest)[j - 1];
        }
      }
      forall x
        ensures x in KeysOf(r) <==> x in s
      {
        assert x in KeysOf(r) <==> x == k || x in KeysOf(rest);
      }
      forall i | 0 <= i < |r|
        ensures r[i].key in m && r[i].value == m[r[i].key]
      {
        if i > 0 {
          assert r[i] == rest[i - 1];
        }
      }
    }
  }

  /** The first key of a non-empty listing is the least key. */
  lemma ListingHeadIsLeast<V>(m: map<string, V>, s: set<string>, r: seq<Item<V>>)
    requires IsListing(m, s, r) && |r| > 0
    ensures IsLeast(r[0].key, s)
  {
    var ks := KeysOf(r);
    assert ks[0] in ks;
    forall j | j in s && j != ks[0]
      ensures Less(ks[0], j)
    {
      var i :| 0 <= i < |ks| && ks[i] == j;
      assert i != 0;
    }
  }

  /** Dropping the head of a listing of `s` leaves a listing of the rest. */
  lemma ListingTail<V>(m: map<string, V>, s: set<string>, r: seq<Item<V>>)
    requires IsListing(m, s, r) && |r| > 0
    ensures IsListing(m, s - {r[0].key}, r[1..])
  {
    var ks, tail := KeysOf(r), r[1..];
    var k := ks[0];
    assert KeysOf(tail) == ks[1..];
    forall x
      ensures x in KeysOf(tail) <==> x in s - {k}
    {
      if x in KeysOf(tail) {
        var i :| 0 <= i < |tail| && KeysOf(tail)[i] == x;
        assert ks[i + 1] == x;
        if x == k {
          LessIrreflexive(k);
        }
      }
      if x in s - {k} {
        assert x in ks;
        var i :| 0 <= i < |r| && ks[i] == x;
        assert KeysOf(tail)[i - 1] == x;
      }
    }
    forall i | 0 <= i < |tail|
      ensures tail[i].key in m && tail[i].value == m[tail[i].key]
    {
      assert tail[i] == r[i + 1];
    }
  }

  /** A listing is unique: any ascending exact listing of `s` is `EntriesOf(m, s)`. */
  lemma {:induction false} ListingIsEntriesOf<V>(m: map<string, V>, s: set<string>, r: seq<Item<V>>)
    requires s <= m.Keys
    requires IsListing(m, s, r)
    ensures r == EntriesOf(m, s)
    decreases |s|
  {
    if |r| > 0 {
      ListingHeadIsLeast(m, s, r);
      var k := Least(s);
      LeastUnique(r[0].key, k, s);
      ListingTail(m, s, r);
      ListingIsEntriesOf(m, s - {k}, r[1..]);
      assert r == [r[0]] + r[1..];
    } else {
      assert KeysOf(r) == [];
      assert s == {};
    }
  }

  /** A scan of an empty prefix covers the whole bucket. */
  lemma EmptyPrefixMatchesAll<V>(m: map<string, V>)
    ensures Matching(m, "") == m.Keys
  {
  }

  class Bucket<V> {
    /** The bucket's name, which the environment's faults refer to. */
    const name: string
    var items: map<string, V>

    constructor (name: string)
      ensures this.name == name && items == map[]
    {
      this.name := name;
      items := map[];
    }

    /** Point read: the value under `key`, or `None` when the key is absent. */
    method Get(key: string, faults: Faults) returns (r: Result<Option<V>>)
      ensures r.Failure? <==> Read(name, key) in faults
      ensures r.Success? ==> (r.value.Some? <==> key in items)
      ensures r.Success? && key in items ==> r.value.value == items[key]
    {
      if Read(name, key) in faults {
        return Failure;
      }
      r := Success(if key in items then Some(items[key]) else None);
    }

    /** Writes `value` under `key`, replacing any earlier value. */
    method Put(key: string, value: V, faults: Faults) returns (ok: bool)
      modifies this
      ensures ok <==> Write(name, key) !in faults
      ensures items == if ok then old(items)[key := value] else old(items)
    {
      ok := Write(name, key) !in faults;
      if ok {
        items := items[key := value];
      }
    }

    /** Removes `key`; removing an absent key is not an error. */
    method Delete(key: string, faults: Faults) returns (ok: bool)
      modifies this
      ensures ok <==> Remove(name, key) !in faults
      ensures items == if ok then old(items) - {key} else old(items)
    {
      ok := Remove(name, key) !in faults;
      if ok {
        items := items - {key};
      }
    }

    /** Every entry whose key starts with `prefix`, in ascending key order. */
    method PrefixItems(prefix: string, faults: Faults) returns (r: Result<seq<Item<V>>>)
      ensures r.Success? <==> ScanPrefix(name, prefix) !in faults
      ensures r.Success? ==> IsListing(items, Matching(items, prefix), r.value)
      ensures r.Success? ==> r.value == Entries(items, prefix)
    {
      if ScanPrefix(name, prefix) in faults {
        return Failure;
      }
      var found := Walk(Matching(items, prefix));
      EntriesOfIsListing(items, Matching(items, prefix));
      r := Success(found);
    }

    /** Every entry of the bucket, in ascending key order. */
    method Items(faults: Faults) returns (r: Result<seq<Item<V>>>)
      ensures r.Success? <==> ScanAll(name) !in faults
      ensures r.Success? ==> IsListing(items, items.Keys, r.value)
      ensures r.Success? ==> r.value == Entries(items, "")
    {
      if ScanAll(name) in faults {
        return Failure;
      }
      EmptyPrefixMatchesAll(items);
      var found := Walk(items.Keys);
      EntriesOfIsListing(items, items.Keys);
      r := Success(found);
    }

    /** A cursor walk over the keys of `keys`, smallest first. */
    method Walk(keys: set<string>) returns (found: seq<Item<V>>)
      requires keys <= items.Keys
      ensures found == EntriesOf(items, keys)
    {
      var rest := keys;
      found := [];
      while rest != {}
        invariant rest <= keys
        invariant EntriesOf(items, keys) == found + EntriesOf(items, rest)
        decreases |rest|
      {
        LeastExists(rest);
        var k :| IsLeast(k, rest);
        LeastUnique(k, Least(rest), rest);
        found := found + [Item(k, items[k])];
        rest := rest - {k};
      }
    }
  }
}
