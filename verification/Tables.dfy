/** Append-only keyed tables with `INSERT OR IGNORE`. */
module Tables {

  ghost predicate Extends<K(!new), V(!new)>(small: map<K, V>, big: map<K, V>) {
    forall h :: h in small ==> h in big && big[h] == small[h]
  }

  ghost predicate Contains<K, V>(rows: map<K, V>, e: (K, V)) {
    e.0 in rows && rows[e.0] == e.1
  }

  function InsertOrIgnore<K, V>(rows: map<K, V>, e: (K, V)): map<K, V> {
    if e.0 in rows then rows else rows[e.0 := e.1]
  }

  /** `INSERT OR IGNORE` of every entry, in order. */
  function Merge<K, V>(rows: map<K, V>, entries: seq<(K, V)>): map<K, V> {
    if entries == [] then rows
    else InsertOrIgnore(Merge(rows, entries[..|entries| - 1]), entries[|entries| - 1])
  }

  lemma MergeSnoc<K, V>(rows: map<K, V>, entries: seq<(K, V)>, e: (K, V))
    ensures Merge(rows, entries + [e]) == InsertOrIgnore(Merge(rows, entries), e)
  {
    assert (entries + [e])[..|entries|] == entries;
  }

  /** No entry meets a different row under its own key. */
  ghost predicate Agree<K(!new), V(!new)>(rows: map<K, V>, entries: seq<(K, V)>) {
    && (forall i :: 0 <= i < |entries| && entries[i].0 in rows ==> rows[entries[i].0] == entries[i].1)
    && (forall i, j :: 0 <= i < |entries| && 0 <= j < |entries| && entries[i].0 == entries[j].0 ==>
          entries[i].1 == entries[j].1)
  }

  /** Every row of the merged table is an old row or an entry. */
  lemma {:induction false} MergeOrigin<K(!new), V(!new)>(rows: map<K, V>, entries: seq<(K, V)>, h: K)
    requires h in Merge(rows, entries)
    ensures Contains(rows, (h, Merge(rows, entries)[h])) || (h, Merge(rows, entries)[h]) in entries
  {
    if entries != [] {
      var init := entries[..|entries| - 1];
      if h in Merge(rows, init) {
        MergeOrigin(rows, init, h);
      }
    }
  }

  /** If the keys agree, ignoring duplicates loses nothing. */
  lemma {:induction false} MergeKeepsAll<K(!new), V(!new)>(rows: map<K, V>, entries: seq<(K, V)>)
    requires Agree(rows, entries)
    ensures Extends(rows, Merge(rows, entries))
    ensures forall e :: e in entries ==> Contains(Merge(rows, entries), e)
  {
    if entries != [] {
      var init, e := entries[..|entries| - 1], entries[|entries| - 1];
      MergeKeepsAll(rows, init);
      if e.0 in Merge(rows, init) {
        MergeOrigin(rows, init, e.0);
      }
      assert Contains(Merge(rows, entries), e);
      forall x | x in entries ensures Contains(Merge(rows, entries), x) {
        assert x in init || x == e;
      }
    }
  }
}
