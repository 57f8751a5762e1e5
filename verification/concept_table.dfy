/** A concept table: the Python dict from concept name to mention count that
    both concept-network scripts build. A Python dict remembers the order in
    which its keys were first inserted, and the layout sorts the keys in that
    order, so a table is the key order together with the name-to-count map. */
module ConceptTable {
  import opened Common

  datatype Entry = Entry(name: string, count: int)

  datatype Table = Table(keys: seq<string>, counts: map<string, int>)

  const Empty: Table := Table([], map[])

  /** The keys are listed once each, and they are exactly the map's keys. */
  ghost predicate Valid(t: Table) {
    && Distinct(t.keys)
    && (forall k :: k in t.counts <==> k in t.keys)
  }

  function Names(entries: seq<Entry>): (names: seq<string>)
    ensures |names| == |entries|
    ensures forall i :: 0 <= i < |entries| ==> names[i] == entries[i].name
  {
    seq(|entries|, i requires 0 <= i < |entries| => entries[i].name)
  }

  /** `d[name] = count`: a new name goes to the end of the key order, an
      existing one keeps its place and gets the new count. */
  function Assign(t: Table, name: string, count: int): (r: Table)
    ensures Valid(t) ==> Valid(r)
    ensures r.counts == t.counts[name := count]
    ensures name in t.counts ==> r.keys == t.keys
    ensures name !in t.counts ==> r.keys == t.keys + [name]
  {
    if name in t.counts then Table(t.keys, t.counts[name := count])
    else Table(t.keys + [name], t.counts[name := count])
  }

  /** `d.update(entries)`, and also a dict display `{n1: c1, n2: c2, ...}`
      when applied to the empty table: one assignment per entry, in order. */
  function Update(t: Table, entries: seq<Entry>): (r: Table)
    ensures Valid(t) ==> Valid(r)
    decreases |entries|
  {
    if entries == [] then t
    else
      var last := entries[|entries| - 1];
      Assign(Update(t, entries[..|entries| - 1]), last.name, last.count)
  }

  function FromEntries(entries: seq<Entry>): (r: Table)
    ensures Valid(r)
  {
    Update(Empty, entries)
  }

  /** Entry `i` is the last one naming its key: a later entry naming the
      same key would overwrite it. */
  ghost predicate LastNaming(entries: seq<Entry>, i: int) {
    && 0 <= i < |entries|
    && forall j :: i < j < |entries| ==> entries[j].name != entries[i].name
  }

  /** `d.update(entries)` in general: the keys afterwards are the old keys
      and the names the entries mention, nothing else. */
  lemma {:induction false} UpdateKeySet(t: Table, entries: seq<Entry>)
    ensures forall k :: k in Update(t, entries).counts <==>
        k in t.counts || exists i :: 0 <= i < |entries| && entries[i].name == k
    decreases |entries|
  {
    if entries != [] {
      var n := |entries| - 1;
      UpdateKeySet(t, entries[..n]);
      assert forall i :: 0 <= i < n ==> entries[..n][i] == entries[i];
    }
  }

  /** A name some entry mentions ends with the count of the last entry
      naming it, overriding any earlier count. */
  lemma {:induction false} UpdateLastWins(t: Table, entries: seq<Entry>)
    ensures forall i :: LastNaming(entries, i) ==>
        entries[i].name in Update(t, entries).counts
        && Update(t, entries).counts[entries[i].name] == entries[i].count
    decreases |entries|
  {
    if entries != [] {
      var n := |entries| - 1;
      var prev, last := entries[..n], entries[n];
      UpdateLastWins(t, prev);
      var r := Update(t, entries);
      assert r.counts == Update(t, prev).counts[last.name := last.count];
      forall i | LastNaming(entries, i)
        ensures entries[i].name in r.counts && r.counts[entries[i].name] == entries[i].count
      {
        if i < n {
          assert prev[i] == entries[i];
          assert LastNaming(prev, i);
        }
      }
    }
  }

  /** A key no entry mentions keeps its count. */
  lemma {:induction false} UpdateUntouched(t: Table, entries: seq<Entry>, k: string)
    requires k in t.counts
    requires forall i :: 0 <= i < |entries| ==> entries[i].name != k
    ensures k in Update(t, entries).counts && Update(t, entries).counts[k] == t.counts[k]
    decreases |entries|
  {
    if entries != [] {
      var n := |entries| - 1;
      assert forall i :: 0 <= i < n ==> entries[..n][i] == entries[i];
      UpdateUntouched(t, entries[..n], k);
    }
  }

  /** The names `d.update(entries)` appends to a key order `keys`: those not
      already keys, once each, in the order of their first mention. */
  function FreshNames(keys: seq<string>, entries: seq<Entry>): (names: seq<string>)
    ensures forall x :: x in names ==> x !in keys
    decreases |entries|
  {
    if entries == [] then []
    else
      var prev := FreshNames(keys, entries[..|entries| - 1]);
      var name := entries[|entries| - 1].name;
      if name in keys || name in prev then prev else prev + [name]
  }

  /** Entry `i` is the first one naming `x`. */
  ghost predicate FirstNaming(entries: seq<Entry>, x: string, i: int) {
    && 0 <= i < |entries|
    && entries[i].name == x
    && forall j :: 0 <= j < i ==> entries[j].name != x
  }

  /** The fresh names are exactly the mentioned names that are not keys,
      none twice, listed in the order of their first mention. */
  lemma {:induction false} FreshNamesSpec(keys: seq<string>, entries: seq<Entry>)
    ensures forall x :: x in FreshNames(keys, entries) <==>
        x !in keys && exists i :: 0 <= i < |entries| && entries[i].name == x
    ensures Distinct(FreshNames(keys, entries))
    ensures forall p, q, i, j ::
        (0 <= p < q < |FreshNames(keys, entries)|
         && FirstNaming(entries, FreshNames(keys, entries)[p], i)
         && FirstNaming(entries, FreshNames(keys, entries)[q], j)) ==> i < j
    decreases |entries|
  {
    if entries != [] {
      var n := |entries| - 1;
      var prev, last := entries[..n], entries[n];
      FreshNamesSpec(keys, prev);
      var f0 := FreshNames(keys, prev);
      var f := FreshNames(keys, entries);
      assert forall i :: 0 <= i < n ==> prev[i] == entries[i];
      // A name listed before the last entry is first named inside the prefix.
      forall x, i | x in f0 && FirstNaming(entries, x, i) ensures i < n && FirstNaming(prev, x, i) {
        var i0 :| 0 <= i0 < n && prev[i0].name == x;
        assert entries[i0].name == x;
      }
      if !(last.name in keys || last.name in f0) {
        assert f == f0 + [last.name];
        forall j | 0 <= j < n ensures prev[j].name in keys || prev[j].name in f0 {
        }
        forall p, q, i, j | 0 <= p < q < |f| && FirstNaming(entries, f[p], i) && FirstNaming(entries, f[q], j)
          ensures i < j
        {
          assert f[p] == f0[p];
          if q < |f0| {
            assert f[q] == f0[q];
          }
        }
      }
    }
  }

  /** `d.update(entries)` keeps the existing key order and appends the names
      it has not seen, in the order of their first mention. */
  lemma {:induction false} UpdateKeys(t: Table, entries: seq<Entry>)
    requires Valid(t)
    ensures Update(t, entries).keys == t.keys + FreshNames(t.keys, entries)
    decreases |entries|
  {
    if entries != [] {
      var n := |entries| - 1;
      var prev, last := entries[..n], entries[n];
      UpdateKeys(t, prev);
      var u := Update(t, prev);
      assert last.name in u.counts <==> last.name in t.keys || last.name in FreshNames(t.keys, prev);
    }
  }

  /** Updating with entries whose names are new and distinct appends those
      names to the key order. */
  lemma {:induction false} UpdateFreshKeys(t: Table, entries: seq<Entry>)
    requires Valid(t)
    requires Distinct(Names(entries))
    requires forall i :: 0 <= i < |entries| ==> entries[i].name !in t.counts
    ensures Update(t, entries).keys == t.keys + Names(entries)
  {
    if entries != [] {
      var n := |entries| - 1;
      var prev, last := entries[..n], entries[n];
      var names := Names(entries);
      assert Names(prev) == names[..n];
      UpdateFreshKeys(t, prev);
      var u := Update(t, prev);
      assert last.name !in u.keys by {
        assert last.name !in t.keys;
        assert forall j :: 0 <= j < n ==> names[j] != names[n];
      }
      assert names == names[..n] + [last.name];
    }
  }

  /** Updating with entries whose names are new and distinct maps each new
      name to its own count, and the old entries keep theirs. */
  lemma {:induction false} UpdateFreshCounts(t: Table, entries: seq<Entry>)
    requires Distinct(Names(entries))
    requires forall i :: 0 <= i < |entries| ==> entries[i].name !in t.counts
    ensures forall k :: k in t.counts ==> k in Update(t, entries).counts && Update(t, entries).counts[k] == t.counts[k]
    ensures forall i :: 0 <= i < |entries| ==>
        entries[i].name in Update(t, entries).counts && Update(t, entries).counts[entries[i].name] == entries[i].count
  {
    if entries != [] {
      var n := |entries| - 1;
      var prev, last := entries[..n], entries[n];
      var names := Names(entries);
      assert Names(prev) == names[..n];
      UpdateFreshCounts(t, prev);
      var u := Update(t, prev);
      var r := Update(t, entries);
      assert r.counts == u.counts[last.name := last.count];
      forall k | k in t.counts ensures k in r.counts && r.counts[k] == t.counts[k] {
        assert k != last.name;
      }
      forall i | 0 <= i < |entries|
        ensures entries[i].name in r.counts && r.counts[entries[i].name] == entries[i].count
      {
        if i < n {
          assert prev[i] == entries[i] && names[i] != names[n];
        }
      }
    }
  }

  /** A dict display followed by an `update` whose names are all distinct:
      the names in order are the keys, each with its own count. */
  lemma {:induction false} DisplayThenUpdate(first: seq<Entry>, second: seq<Entry>)
    requires Distinct(Names(first) + Names(second))
    ensures Valid(Update(Update(Empty, first), second))
    ensures Update(Update(Empty, first), second).keys == Names(first) + Names(second)
    ensures |Update(Update(Empty, first), second).counts| == |first| + |second|
    ensures forall i :: 0 <= i < |first| ==>
        first[i].name in Update(Update(Empty, first), second).counts
        && Update(Update(Empty, first), second).counts[first[i].name] == first[i].count
    ensures forall i :: 0 <= i < |second| ==>
        second[i].name in Update(Update(Empty, first), second).counts
        && Update(Update(Empty, first), second).counts[second[i].name] == second[i].count
  {
    DistinctConcat(Names(first), Names(second));
    UpdateFreshKeys(Empty, first);
    UpdateFreshCounts(Empty, first);
    var t := Update(Empty, first);
    assert t.keys == Names(first) by {
      assert Empty.keys + Names(first) == Names(first);
    }
    forall i | 0 <= i < |second| ensures second[i].name !in t.counts {
      forall j | 0 <= j < |first| ensures t.keys[j] != second[i].name {
        assert Names(first)[j] == t.keys[j] && Names(second)[i] == second[i].name;
      }
    }
    UpdateFreshKeys(t, second);
    UpdateFreshCounts(t, second);
    var u := Update(t, second);
    TableSize(u);
    forall i | 0 <= i < |first| ensures u.counts[first[i].name] == first[i].count {
      assert first[i].name in t.counts;
    }
  }

  /** A dict display whose names are distinct: the names in order are the
      keys, each with its own count. */
  lemma DisplayContents(entries: seq<Entry>)
    requires Distinct(Names(entries))
    ensures FromEntries(entries).keys == Names(entries)
    ensures |FromEntries(entries).counts| == |entries|
    ensures forall i :: 0 <= i < |entries| ==>
        entries[i].name in FromEntries(entries).counts && FromEntries(entries).counts[entries[i].name] == entries[i].count
  {
    var t := FromEntries(entries);
    UpdateFreshKeys(Empty, entries);
    UpdateFreshCounts(Empty, entries);
    assert t.keys == Names(entries) by {
      assert Empty.keys + Names(entries) == Names(entries);
    }
    TableSize(t);
  }

  /** In a dict display whose names are distinct, every key holds the count
      of the entry that names it. */
  lemma DisplayKeyOrigin(entries: seq<Entry>, k: string)
    requires Distinct(Names(entries))
    requires k in FromEntries(entries).counts
    ensures exists i :: 0 <= i < |entries| && entries[i].name == k && FromEntries(entries).counts[k] == entries[i].count
  {
    DisplayContents(entries);
    var t := FromEntries(entries);
    var i :| 0 <= i < |t.keys| && t.keys[i] == k;
    assert entries[i].name == k;
  }

  /** A valid table has exactly one count per listed key. */
  lemma TableSize(t: Table)
    requires Valid(t)
    ensures |t.counts| == |t.keys|
  {
    assert t.counts.Keys == set k | k in t.keys;
    DistinctCardinality(t.keys);
  }
}
