/** The client database's tables that are keyed by leaf index and iterated in key order. */
module IndexedTable {

  datatype Row<+R> = Row(index: nat, data: R)

  ghost predicate Sorted<R>(t: seq<Row<R>>) {
    forall i, j :: 0 <= i < j < |t| ==> t[i].index < t[j].index
  }

  /** Stores a row, replacing the one with the same index. */
  function Put<R>(t: seq<Row<R>>, row: Row<R>): seq<Row<R>> {
    if t == [] then [row]
    else if row.index < t[0].index then [row] + t
    else if row.index == t[0].index then [row] + t[1..]
    else [t[0]] + Put(t[1..], row)
  }

  /** The table as a map from index to data. */
  function Entries<R>(t: seq<Row<R>>): map<nat, R> {
    if t == [] then map[] else Entries(t[1..])[t[0].index := t[0].data]
  }

  lemma {:induction false} EntriesKeys<R>(t: seq<Row<R>>, k: nat)
    ensures k in Entries(t) <==> exists i :: 0 <= i < |t| && t[i].index == k
  {
    if t != [] {
      EntriesKeys(t[1..], k);
      if exists i :: 0 <= i < |t| && t[i].index == k {
        var i :| 0 <= i < |t| && t[i].index == k;
        if i > 0 { assert t[1..][i - 1].index == k; }
      }
      if k in Entries(t[1..]) {
        var i :| 0 <= i < |t[1..]| && t[1..][i].index == k;
        assert t[i + 1].index == k;
      }
    }
  }

  lemma {:induction false} PutSorted<R>(t: seq<Row<R>>, row: Row<R>)
    requires Sorted(t)
    ensures Sorted(Put(t, row))
    ensures Put(t, row) != [] && (Put(t, row)[0].index == row.index || (t != [] && Put(t, row)[0] == t[0]))
  {
    if t != [] && row.index > t[0].index {
      PutSorted(t[1..], row);
    }
  }

  /** Storing changes the table at the row's index only. */
  lemma {:induction false} PutEntries<R>(t: seq<Row<R>>, row: Row<R>)
    requires Sorted(t)
    ensures Entries(Put(t, row)) == Entries(t)[row.index := row.data]
  {
    if t == [] {
    } else if row.index < t[0].index {
      assert ([row] + t)[1..] == t;
    } else if row.index == t[0].index {
      assert ([row] + t[1..])[1..] == t[1..];
    } else {
      assert ([t[0]] + Put(t[1..], row))[1..] == Put(t[1..], row);
      PutEntries(t[1..], row);
    }
  }

  /** A table is determined by its entries. */
  lemma {:induction false} EntriesDetermine<R>(a: seq<Row<R>>, b: seq<Row<R>>)
    requires Sorted(a) && Sorted(b) && Entries(a) == Entries(b)
    ensures a == b
  {
    assert a != [] ==> a[0].index in Entries(a);
    assert b != [] ==> b[0].index in Entries(b);
    if a != [] && b != [] {
      HeadIsLeast(a);
      HeadIsLeast(b);
      assert a[0].index in Entries(b) && b[0].index in Entries(a);
      assert a[0].index == b[0].index;
      assert a[0] == b[0];
      TailEntries(a);
      TailEntries(b);
      EntriesDetermine(a[1..], b[1..]);
    }
  }

  lemma HeadIsLeast<R>(t: seq<Row<R>>)
    requires Sorted(t) && t != []
    ensures forall k :: k in Entries(t) ==> t[0].index <= k
  {
    forall k | k in Entries(t) ensures t[0].index <= k { EntriesKeys(t, k); }
  }

  lemma TailEntries<R>(t: seq<Row<R>>)
    requires Sorted(t) && t != []
    ensures Entries(t[1..]) == Entries(t) - {t[0].index}
  {
    EntriesKeys(t[1..], t[0].index);
  }

  /** A table whose row i has index i. */
  ghost predicate Dense<R>(t: seq<Row<R>>) {
    forall i :: 0 <= i < |t| ==> t[i].index == i
  }

  /** Appending the next row to a dense table. */
  lemma {:induction false} PutLast<R>(t: seq<Row<R>>, row: Row<R>)
    requires forall i :: 0 <= i < |t| ==> t[i].index < row.index
    ensures Put(t, row) == t + [row]
  {
    if t != [] {
      PutLast(t[1..], row);
      assert [t[0]] + (t[1..] + [row]) == t + [row];
    }
  }

  lemma {:induction false} EntryAt<R>(t: seq<Row<R>>, i: nat)
    requires Sorted(t) && i < |t|
    ensures t[i].index in Entries(t) && Entries(t)[t[i].index] == t[i].data
  {
    if i > 0 { EntryAt(t[1..], i - 1); }
  }
}
