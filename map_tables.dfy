/** The key-value tables the interpolated-string builder keeps its symbols
    in, and the three ways it moves entries between them. Each walks the
    array of keys that the table's key enumerator hands out, in whatever
    order that is; nothing here relies on the order. */
module MapTables {

  /** No key is listed twice. */
  ghost predicate Distinct(keys: seq<string>) {
    forall i, j :: 0 <= i < j < |keys| ==> keys[i] != keys[j]
  }

  /** The keys listed, as a set. */
  ghost function Elems(keys: seq<string>): set<string> {
    if keys == [] then {} else Elems(keys[..|keys| - 1]) + {keys[|keys| - 1]}
  }

  lemma {:induction false} ElemsMembership(keys: seq<string>)
    ensures forall k :: k in Elems(keys) <==> k in keys
  {
    if keys != [] {
      ElemsMembership(keys[..|keys| - 1]);
      assert keys == keys[..|keys| - 1] + [keys[|keys| - 1]];
    }
  }

  /** The array of a table's keys: each key exactly once, in an order the
      table chooses. */
  method KeysOf<V>(table: map<string, V>) returns (keys: seq<string>)
    ensures Elems(keys) == table.Keys
    ensures Distinct(keys)
  {
    keys := [];
    var rest := table.Keys;
    while rest != {}
      invariant rest <= table.Keys
      invariant Elems(keys) == table.Keys - rest
      invariant Distinct(keys)
      decreases rest
    {
      var k :| k in rest;
      ElemsMembership(keys);
      keys := keys + [k];
      rest := rest - {k};
    }
  }

  /** The table after visiting `keys` in order, writing each key's entry
      of `from` into `base`. */
  function CopyEntries<V>(keys: seq<string>, from: map<string, V>, base: map<string, V>): map<string, V>
    requires forall k :: k in keys ==> k in from
  {
    if keys == [] then base
    else
      var key := keys[|keys| - 1];
      CopyEntries(keys[..|keys| - 1], from, base)[key := from[key]]
  }

  lemma {:induction false} CopyEntriesTable<V>(keys: seq<string>, from: map<string, V>, base: map<string, V>)
    requires forall k :: k in keys ==> k in from
    ensures forall k :: k in CopyEntries(keys, from, base) <==> k in base || k in keys
    ensures forall k :: k in keys ==> CopyEntries(keys, from, base)[k] == from[k]
    ensures forall k :: k in base && k !in keys ==> CopyEntries(keys, from, base)[k] == base[k]
  {
    if keys != [] {
      CopyEntriesTable(keys[..|keys| - 1], from, base);
    }
  }

  /** Visiting every key of `from` writes all of `from` over `base`. */
  lemma CopyEntriesMerged<V>(keys: seq<string>, from: map<string, V>, base: map<string, V>)
    requires Elems(keys) == from.Keys
    ensures forall k :: k in keys ==> k in from
    ensures CopyEntries(keys, from, base) == base + from
  {
    ElemsMembership(keys);
    CopyEntriesTable(keys, from, base);
  }

  /** Writes every entry of `from` into `base`, key by key: the entries of
      `from` overwrite. */
  method WriteEntries<V>(base: map<string, V>, from: map<string, V>) returns (r: map<string, V>)
    ensures r == base + from
  {
    var keys := KeysOf(from);
    CopyEntriesMerged(keys, from, base);
    r := base;
    for i := 0 to |keys|
      invariant r == CopyEntries(keys[..i], from, base)
    {
      var key := keys[i];
      r := r[key := from[key]];
      assert keys[..i + 1][..i] == keys[..i];
    }
    assert keys[..|keys|] == keys;
  }

  /** The table and the count after visiting `keys` in order, inserting the
      entry of each key not yet present and counting each insertion. */
  function InsertAbsent<V>(keys: seq<string>, from: map<string, V>, views: map<string, V>, count: int): (map<string, V>, int)
    requires forall k :: k in keys ==> k in from
  {
    if keys == [] then (views, count)
    else
      var prev := InsertAbsent(keys[..|keys| - 1], from, views, count);
      var key := keys[|keys| - 1];
      if key in prev.0 then prev else (prev.0[key := from[key]], prev.1 + 1)
  }

  /** Inserts each entry of a fragment's view table whose key is not yet in
      `views`, counting each insertion: present entries are kept, and the
      count grows by the number of keys that were new. */
  method InsertNewViews<V>(views: map<string, V>, viewCount: int, from: map<string, V>)
    returns (r: map<string, V>, count: int)
    ensures r == from + views
    ensures count == viewCount + |from.Keys - views.Keys|
  {
    var keys := KeysOf(from);
    InsertAbsentAll(keys, from, views, viewCount);
    r, count := InsertEach(keys, views, viewCount, from);
  }

  /** The loop of `InsertNewViews` over a given array of keys. */
  method InsertEach<V>(keys: seq<string>, views: map<string, V>, viewCount: int, from: map<string, V>)
    returns (r: map<string, V>, count: int)
    requires forall k :: k in keys ==> k in from
    ensures (r, count) == InsertAbsent(keys, from, views, viewCount)
  {
    r, count := views, viewCount;
    for i := 0 to |keys|
      invariant (r, count) == InsertAbsent(keys[..i], from, views, viewCount)
    {
      var key := keys[i];
      if key !in r {
        r := r[key := from[key]];
        count := count + 1;
      }
      assert keys[..i + 1][..i] == keys[..i];
    }
    assert keys[..|keys|] == keys;
  }

  /** Visiting every key of `from` once inserts exactly the missing entries,
      and counts exactly the keys that were missing. */
  lemma InsertAbsentAll<V>(keys: seq<string>, from: map<string, V>, views: map<string, V>, count: int)
    requires Elems(keys) == from.Keys && Distinct(keys)
    ensures forall k :: k in keys ==> k in from
    ensures InsertAbsent(keys, from, views, count).0 == from + views
    ensures InsertAbsent(keys, from, views, count).1 == count + |from.Keys - views.Keys|
  {
    ElemsMembership(keys);
    InsertAbsentMerged(keys, from, views, count);
    InsertAbsentCount(keys, from, views, count);
  }

  lemma {:induction false} InsertAbsentTable<V>(keys: seq<string>, from: map<string, V>, views: map<string, V>, count: int)
    requires forall k :: k in keys ==> k in from
    ensures forall k :: k in InsertAbsent(keys, from, views, count).0 <==> k in views || k in keys
    ensures forall k :: k in views ==> InsertAbsent(keys, from, views, count).0[k] == views[k]
    ensures forall k :: k in keys && k !in views ==> InsertAbsent(keys, from, views, count).0[k] == from[k]
  {
    if keys != [] {
      InsertAbsentTable(keys[..|keys| - 1], from, views, count);
    }
  }

  lemma InsertAbsentMerged<V>(keys: seq<string>, from: map<string, V>, views: map<string, V>, count: int)
    requires forall k :: k in keys <==> k in from
    ensures InsertAbsent(keys, from, views, count).0 == from + views
  {
    InsertAbsentTable(keys, from, views, count);
  }

  lemma {:induction false} InsertAbsentCount<V>(keys: seq<string>, from: map<string, V>, views: map<string, V>, count: int)
    requires forall k :: k in keys ==> k in from
    requires Distinct(keys)
    ensures InsertAbsent(keys, from, views, count).1 == count + |Elems(keys) - views.Keys|
  {
    if keys != [] {
      var init := keys[..|keys| - 1];
      var x := keys[|keys| - 1];
      InsertAbsentCount(init, from, views, count);
      InsertAbsentTable(init, from, views, count);
      ElemsMembership(init);
      NewKeysSnoc(Elems(init), x, views.Keys);
    }
  }

  lemma NewKeysSnoc(s: set<string>, x: string, present: set<string>)
    requires x !in s
    ensures |(s + {x}) - present| == |s - present| + (if x in present then 0 else 1)
  {
    if x in present {
      assert (s + {x}) - present == s - present;
    } else {
      assert (s + {x}) - present == (s - present) + {x};
    }
  }

  /** Inserting under only new keys grows a table by the number of new keys. */
  lemma NewKeysCount<V>(from: map<string, V>, views: map<string, V>)
    ensures |from + views| == |views| + |from.Keys - views.Keys|
  {
    var merged := from + views;
    assert merged.Keys == views.Keys + (from.Keys - views.Keys);
    assert views.Keys !! (from.Keys - views.Keys);
  }

  /** Copies a table into a dictionary, key by key. */
  method VflDictionary<T>(table: map<string, T>) returns (dictionary: map<string, T>)
    ensures dictionary == table
  {
    var keys := KeysOf(table);
    CopyEntriesMerged(keys, table, map[]);
    dictionary := map[];
    for i := 0 to |keys|
      invariant dictionary == CopyEntries(keys[..i], table, map[])
    {
      var key := keys[i];
      dictionary := dictionary[key := table[key]];
      assert keys[..i + 1][..i] == keys[..i];
    }
    assert keys[..|keys|] == keys;
    assert map[] + table == table;
  }
}
