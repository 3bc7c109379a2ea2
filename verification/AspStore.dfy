/** The client's replica of the ASP membership tree: a table of leaves and a live tree,
    fed by batches of contract events. */
module AspStore {
  import opened Common
  import opened Bits
  import opened MerkleSpec
  import opened MerkleContracts
  import opened IndexedTable

  /** A published insertion and the ledger it is in; other events are ignored. */
  datatype Event<T> = LeafEvent(added: LeafAdded<T>, ledger: nat) | OtherEvent

  datatype Leaf<T> = Leaf(leaf: T, root: T, ledger: nat)

  /** The leaf table, and the leaves of the live tree once it is initialised. */
  datatype State<T> = State(db: seq<Row<Leaf<T>>>, tree: Option<seq<T>>)

  datatype Fault = GapInIndices | OutOfOrder | TreeFull

  // ----- filtering and sorting a batch

  function LeafEvents<T>(events: seq<Event<T>>): seq<Event<T>> {
    if events == [] then []
    else (if events[0].LeafEvent? then [events[0]] else []) + LeafEvents(events[1..])
  }

  ghost predicate AllLeaf<T>(es: seq<Event<T>>) {
    forall i :: 0 <= i < |es| ==> es[i].LeafEvent?
  }

  lemma {:induction false} LeafEventsAreLeaf<T>(events: seq<Event<T>>)
    ensures AllLeaf(LeafEvents(events))
  {
    if events != [] { LeafEventsAreLeaf(events[1..]); }
  }

  /** Stable sorting by leaf index. */
  function SortByIndex<T>(es: seq<Event<T>>): (s: seq<Event<T>>)
    requires AllLeaf(es)
    ensures |s| == |es| && AllLeaf(s) && multiset(s) == multiset(es)
  {
    if es == [] then [] else
      assert es == [es[0]] + es[1..];
      InsertSorted(es[0], SortByIndex(es[1..]))
  }

  function InsertSorted<T>(e: Event<T>, s: seq<Event<T>>): (r: seq<Event<T>>)
    requires e.LeafEvent? && AllLeaf(s)
    ensures |r| == |s| + 1 && AllLeaf(r) && multiset(r) == multiset(s) + multiset{e}
  {
    if s == [] || e.added.index <= s[0].added.index then [e] + s
    else
      assert s == [s[0]] + s[1..];
      [s[0]] + InsertSorted(e, s[1..])
  }

  ghost predicate Ascending<T>(s: seq<Event<T>>) {
    AllLeaf(s) && forall i, j :: 0 <= i < j < |s| ==> s[i].added.index <= s[j].added.index
  }

  lemma {:induction false} InsertAscending<T>(e: Event<T>, s: seq<Event<T>>)
    requires e.LeafEvent? && Ascending(s)
    ensures Ascending(InsertSorted(e, s))
    ensures InsertSorted(e, s)[0] == e || (s != [] && InsertSorted(e, s)[0] == s[0])
  {
    if s != [] && e.added.index > s[0].added.index {
      InsertAscending(e, s[1..]);
    }
  }

  lemma {:induction false} SortAscending<T>(es: seq<Event<T>>)
    requires AllLeaf(es)
    ensures Ascending(SortByIndex(es))
  {
    if es != [] {
      SortAscending(es[1..]);
      InsertAscending(es[0], SortByIndex(es[1..]));
    }
  }

  /** The events of index x, in their order. */
  function AtIndex<T>(es: seq<Event<T>>, x: nat): seq<Event<T>>
    requires AllLeaf(es)
  {
    if es == [] then []
    else (if es[0].added.index == x then [es[0]] else []) + AtIndex(es[1..], x)
  }

  /** Sorting keeps the order of events with the same index. */
  lemma {:induction false} SortIsStable<T>(es: seq<Event<T>>, x: nat)
    requires AllLeaf(es)
    ensures AtIndex(SortByIndex(es), x) == AtIndex(es, x)
  {
    if es != [] {
      SortIsStable(es[1..], x);
      InsertIsStable(es[0], SortByIndex(es[1..]), x);
      assert ([es[0]] + es[1..])[1..] == es[1..];
    }
  }

  lemma {:induction false} InsertIsStable<T>(e: Event<T>, s: seq<Event<T>>, x: nat)
    requires e.LeafEvent? && AllLeaf(s)
    ensures AtIndex(InsertSorted(e, s), x) == (if e.added.index == x then [e] else []) + AtIndex(s, x)
  {
    if s == [] || e.added.index <= s[0].added.index {
      assert ([e] + s)[1..] == s;
    } else {
      var r := InsertSorted(e, s[1..]);
      InsertIsStable(e, s[1..], x);
      assert ([s[0]] + r)[1..] == r;
    }
  }

  ghost predicate StrictlyAscending<T>(s: seq<Event<T>>) {
    AllLeaf(s) && forall i, j :: 0 <= i < j < |s| ==> s[i].added.index < s[j].added.index
  }

  /** Sorting any rearrangement of a strictly ascending list gives the list. */
  lemma {:induction false} SortedIs<T>(xs: seq<Event<T>>, ys: seq<Event<T>>)
    requires Ascending(xs) && StrictlyAscending(ys) && multiset(xs) == multiset(ys)
    ensures xs == ys
  {
    SameLength(xs, ys);
    if xs != [] {
      SameHead(xs, ys);
      SameTails(xs, ys);
      SortedIs(xs[1..], ys[1..]);
      assert xs == [xs[0]] + xs[1..] && ys == [ys[0]] + ys[1..];
    }
  }

  lemma SameLength<T>(xs: seq<T>, ys: seq<T>)
    requires multiset(xs) == multiset(ys)
    ensures |xs| == |ys|
  {
    assert |multiset(xs)| == |xs| && |multiset(ys)| == |ys|;
  }

  lemma SameHead<T>(xs: seq<Event<T>>, ys: seq<Event<T>>)
    requires Ascending(xs) && StrictlyAscending(ys) && multiset(xs) == multiset(ys)
    requires xs != [] && ys != []
    ensures xs[0] == ys[0]
  {
    assert xs[0] in multiset(ys) && ys[0] in multiset(xs);
    var i :| 0 <= i < |ys| && ys[i] == xs[0];
    var j :| 0 <= j < |xs| && xs[j] == ys[0];
    assert xs[0].added.index <= xs[j].added.index;
  }

  lemma SameTails<T>(xs: seq<T>, ys: seq<T>)
    requires xs != [] && ys != [] && xs[0] == ys[0] && multiset(xs) == multiset(ys)
    ensures multiset(xs[1..]) == multiset(ys[1..])
  {
    assert xs == [xs[0]] + xs[1..] && ys == [ys[0]] + ys[1..];
    assert multiset(xs[1..]) == multiset(xs) - multiset{xs[0]};
    assert multiset(ys[1..]) == multiset(ys) - multiset{ys[0]};
  }

  // ----- processing

  function RowOf<T>(e: Event<T>, ledger: nat): Row<Leaf<T>>
    requires e.LeafEvent?
  {
    Row(e.added.index, Leaf(e.added.leaf, e.added.root, if e.ledger == 0 then ledger else e.ledger))
  }

  /** One event: the row is stored before the order is checked. */
  function AfterLeaf<T>(s: State<T>, e: Event<T>, ledger: nat, depth: nat): (State<T>, Result<(), Fault>)
    requires e.LeafEvent?
  {
    var db := Put(s.db, RowOf(e, ledger));
    match s.tree
    case None => (State(db, None), Success(()))
    case Some(leaves) =>
      if e.added.index != |leaves| then (State(db, s.tree), Failure(OutOfOrder))
      else if |leaves| >= Pow2(depth) then (State(db, s.tree), Failure(TreeFull))
      else (State(db, Some(leaves + [e.added.leaf])), Success(()))
  }

  /** A sorted batch, skipping indices below next; stops at the first failure. */
  function AfterSorted<T>(s: State<T>, es: seq<Event<T>>, next: nat, ledger: nat,
                          depth: nat): (State<T>, Result<nat, Fault>)
    requires AllLeaf(es)
    decreases |es|
  {
    if es == [] then (s, Success(0))
    else if es[0].added.index < next then AfterSorted(s, es[1..], next, ledger, depth)
    else
      var (s1, r1) := AfterLeaf(s, es[0], ledger, depth);
      if r1.Failure? then (s1, Failure(r1.error))
      else
        var (s2, r2) := AfterSorted(s1, es[1..], next, ledger, depth);
        (s2, if r2.Success? then Success(r2.value + 1) else r2)
  }

  /** A result, with count more events already processed. */
  function Counting<T>(count: nat, p: (State<T>, Result<nat, Fault>)): (State<T>, Result<nat, Fault>) {
    (p.0, if p.1.Success? then Success(p.1.value + count) else p.1)
  }

  function Remaining<T>(s: State<T>, es: seq<Event<T>>, i: nat, next: nat, ledger: nat,
      depth: nat): (State<T>, Result<nat, Fault>)
    requires AllLeaf(es) && i <= |es|
  {
    AfterSorted(s, es[i..], next, ledger, depth)
  }

  lemma SortedStep<T>(s: State<T>, es: seq<Event<T>>, i: nat, next: nat, ledger: nat, depth: nat)
    requires AllLeaf(es) && i < |es|
    ensures Remaining(s, es, i, next, ledger, depth) ==
      if es[i].added.index < next then Remaining(s, es, i + 1, next, ledger, depth)
      else
        var (s1, r1) := AfterLeaf(s, es[i], ledger, depth);
        if r1.Failure? then (s1, Failure(r1.error))
        else Counting(1, Remaining(s1, es, i + 1, next, ledger, depth))
  {
    assert es[i..][1..] == es[i + 1..];
  }

  function NextIndex<T>(s: State<T>): nat {
    if s.tree.Some? then |s.tree.value| else 0
  }

  function AfterBatch<T>(s: State<T>, events: seq<Event<T>>, ledger: nat, depth: nat): (State<T>, Result<nat, Fault>) {
    LeafEventsAreLeaf(events);
    AfterSorted(s, SortByIndex(LeafEvents(events)), NextIndex(s), ledger, depth)
  }

  /** Rebuilding the tree from the table. */
  function AfterInit<T>(s: State<T>, depth: nat): (State<T>, Result<(), Fault>) {
    var n := DensePrefix(s.db, 0);
    if n > Pow2(depth) then (State(s.db, Some(DataLeaves(s.db[..Pow2(depth)]))), Failure(TreeFull))
    else
      (State(s.db, Some(DataLeaves(s.db[..n]))), if n < |s.db| then Failure(GapInIndices) else Success(()))
  }

  function DensePrefix<R>(t: seq<Row<R>>, from: nat): (n: nat)
    requires from <= |t|
    ensures from <= n <= |t|
    ensures forall i :: from <= i < n ==> t[i].index == i
    ensures n < |t| ==> t[n].index != n
    decreases |t| - from
  {
    if from < |t| && t[from].index == from then DensePrefix(t, from + 1) else from
  }

  function DataLeaves<T>(t: seq<Row<Leaf<T>>>): (leaves: seq<T>)
    ensures |leaves| == |t| && forall i :: 0 <= i < |t| ==> leaves[i] == t[i].data.leaf
  {
    seq(|t|, i requires 0 <= i < |t| => t[i].data.leaf)
  }

  class AspMembershipStore<T> {
    const compress: Compression<T>
    const zeroLeaf: T
    const depth: nat
    var db: seq<Row<Leaf<T>>>
    var tree: Option<seq<T>>

    function Now(): State<T>
      reads this
    {
      State(db, tree)
    }

    constructor (compress: Compression<T>, zeroLeaf: T, depth: nat, db: seq<Row<Leaf<T>>>)
      ensures this.compress == compress && this.zeroLeaf == zeroLeaf && this.depth == depth
      ensures Now() == State(db, None)
    {
      this.compress := compress;
      this.zeroLeaf := zeroLeaf;
      this.depth := depth;
      this.db := db;
      tree := None;
    }

    method Init() returns (res: Result<(), Fault>)
      modifies this
      ensures (Now(), res) == AfterInit(old(Now()), depth)
      ensures db == old(db) && tree.Some? && |tree.value| <= |db|
      ensures forall i :: 0 <= i < |tree.value| ==> db[i].index == i && tree.value[i] == db[i].data.leaf
      ensures if res.Success? then |tree.value| == |db| <= Pow2(depth)
        else if res.error == GapInIndices then |tree.value| < |db| && db[|tree.value|].index != |tree.value|
        else res.error == TreeFull && |tree.value| == Pow2(depth) < |db| && db[|tree.value|].index == |tree.value|
    {
      tree := Some([]);
      var expected := 0;
      ghost var n := DensePrefix(db, 0);
      for i := 0 to |db|
        invariant i <= n && expected == i && i <= Pow2(depth)
        invariant tree == Some(DataLeaves(db[..i]))
        modifies this`tree
      {
        if db[i].index != expected {
          return Failure(GapInIndices);
        }
        if |tree.value| >= Pow2(depth) {
          return Failure(TreeFull);
        }
        tree := Some(tree.value + [db[i].data.leaf]);
        assert DataLeaves(db[..i + 1]) == DataLeaves(db[..i]) + [db[i].data.leaf];
        expected := db[i].index + 1;
      }
      res := Success(());
    }

    method ProcessLeafAdded(e: Event<T>, ledger: nat) returns (res: Result<(), Fault>)
      requires e.LeafEvent?
      modifies this
      ensures (Now(), res) == AfterLeaf(old(Now()), e, ledger, depth)
      ensures Sorted(old(db)) ==> Sorted(db) && Entries(db) == Entries(old(db))[e.added.index :=
        Leaf(e.added.leaf, e.added.root, if e.ledger == 0 then ledger else e.ledger)]
      ensures tree == if old(tree).Some? && res.Success? then Some(old(tree).value + [e.added.leaf]) else old(tree)
      ensures old(tree).Some? ==>
        res == (if e.added.index != |old(tree).value| then Failure(OutOfOrder)
                else if |old(tree).value| >= Pow2(depth) then Failure(TreeFull) else Success(()))
      ensures old(tree).None? ==> res.Success?
    {
      if Sorted(db) {
        PutSorted(db, RowOf(e, ledger));
        PutEntries(db, RowOf(e, ledger));
      }
      db := Put(db, RowOf(e, ledger));
      if tree.Some? {
        if e.added.index != |tree.value| {
          return Failure(OutOfOrder);
        }
        if |tree.value| >= Pow2(depth) {
          return Failure(TreeFull);
        }
        tree := Some(tree.value + [e.added.leaf]);
      }
      res := Success(());
    }

    method ProcessEvents(events: seq<Event<T>>, ledger: nat) returns (res: Result<nat, Fault>)
      modifies this
      ensures (Now(), res) == AfterBatch(old(Now()), events, ledger, depth)
    {
      LeafEventsAreLeaf(events);
      var leafEvents := SortByIndex(LeafEvents(events));
      var nextIdx := if tree.Some? then |tree.value| else 0;
      res := ProcessSorted(leafEvents, nextIdx, ledger);
    }

    /** The loop over a sorted batch. */
    method ProcessSorted(leafEvents: seq<Event<T>>, nextIdx: nat, ledger: nat) returns (res: Result<nat, Fault>)
      requires AllLeaf(leafEvents)
      modifies this
      ensures (Now(), res) == AfterSorted(old(Now()), leafEvents, nextIdx, ledger, depth)
    {
      var count := 0;
      ghost var want := AfterSorted(Now(), leafEvents, nextIdx, ledger, depth);
      assert leafEvents[0..] == leafEvents;
      for i := 0 to |leafEvents|
        invariant want == Counting(count, Remaining(Now(), leafEvents, i, nextIdx, ledger, depth))
      {
        SortedStep(Now(), leafEvents, i, nextIdx, ledger, depth);
        var e := leafEvents[i];
        if e.added.index >= nextIdx {
          var one := ProcessLeafAdded(e, ledger);
          if one.Failure? {
            return Failure(one.error);
          }
          count := count + 1;
        }
      }
      res := Success(count);
    }

    method Clear()
      modifies this
      ensures Now() == State([], Some([]))
    {
      db := [];
      tree := Some([]);
    }

    method GetRoot() returns (root: Option<T>)
      ensures root == if tree.Some? then Some(TreeRoot(compress, zeroLeaf, tree.value, depth)) else None
    {
      root := if tree.Some? then Some(TreeRoot(compress, zeroLeaf, tree.value, depth)) else None;
    }
  }

  // ----- when a batch succeeds

  function Unseen<T>(es: seq<Event<T>>, next: nat): (u: seq<Event<T>>)
    requires AllLeaf(es)
    ensures AllLeaf(u)
  {
    if es == [] then []
    else (if es[0].added.index < next then [] else [es[0]]) + Unseen(es[1..], next)
  }

  /** Events that continue the tree: consecutive indices from next. */
  ghost predicate Continues<T>(u: seq<Event<T>>, next: nat) {
    AllLeaf(u) && forall i :: 0 <= i < |u| ==> u[i].added.index == next + i
  }

  /** A batch is accepted exactly if its unseen events, sorted, continue the local tree
      and fit it. */
  lemma BatchSucceedsIff<T>(s: State<T>, events: seq<Event<T>>, ledger: nat, depth: nat)
    requires s.tree.Some?
    ensures AllLeaf(LeafEvents(events))
    ensures var next := |s.tree.value|;
      var u := Unseen(SortByIndex(LeafEvents(events)), next);
      && (AfterBatch(s, events, ledger, depth).1.Success? <==>
            Continues(u, next) && (u == [] || next + |u| <= Pow2(depth)))
      && (AfterBatch(s, events, ledger, depth).1.Success? ==>
            AfterBatch(s, events, ledger, depth).1.value == |u|)
  {
    LeafEventsAreLeaf(events);
    SortedSucceedsIff(s, SortByIndex(LeafEvents(events)), |s.tree.value|, ledger, depth);
  }

  lemma {:induction false} SortedSucceedsIff<T>(s: State<T>, es: seq<Event<T>>, next: nat, ledger: nat, depth: nat)
    requires s.tree.Some? && AllLeaf(es) && next <= |s.tree.value|
    ensures var u, k := Unseen(es, next), |s.tree.value|;
      var r := AfterSorted(s, es, next, ledger, depth).1;
      && (r.Success? <==> Continues(u, k) && (u == [] || k + |u| <= Pow2(depth)))
      && (r.Success? ==> r.value == |u|)
    decreases |es|
  {
    if es != [] {
      if es[0].added.index < next {
        SortedSucceedsIff(s, es[1..], next, ledger, depth);
        assert Unseen(es, next) == Unseen(es[1..], next);
      } else {
        var (s1, r1) := AfterLeaf(s, es[0], ledger, depth);
        var u, rest := Unseen(es, next), Unseen(es[1..], next);
        assert u == [es[0]] + rest;
        if r1.Success? {
          SortedSucceedsIff(s1, es[1..], next, ledger, depth);
          ContinuesCons(es[0], rest, |s.tree.value|);
        } else {
          assert u[0].added.index != |s.tree.value| || |s.tree.value| >= Pow2(depth);
        }
      }
    }
  }

  lemma ContinuesCons<T>(e: Event<T>, rest: seq<Event<T>>, k: nat)
    requires e.LeafEvent? && e.added.index == k && AllLeaf(rest)
    ensures Continues([e] + rest, k) <==> Continues(rest, k + 1)
  {
    if Continues([e] + rest, k) {
      forall i | 0 <= i < |rest| ensures rest[i].added.index == k + 1 + i {
        assert ([e] + rest)[i + 1] == rest[i];
      }
    }
  }

  /** What an accepted sorted batch has stored: the leaves of its unseen events in the tree,
      and a row for each of them; every other row is as it was. */
  lemma {:induction false} SortedStores<T>(s: State<T>, es: seq<Event<T>>, next: nat, ledger: nat, depth: nat)
    requires s.tree.Some? && AllLeaf(es) && next <= |s.tree.value| && Sorted(s.db)
    requires AfterSorted(s, es, next, ledger, depth).1.Success?
    ensures StoredUnseen(s, AfterSorted(s, es, next, ledger, depth).0, Unseen(es, next), ledger)
    decreases |es|
  {
    if es == [] {
      assert s.tree.value + TreeOf([]) == s.tree.value;
    } else if es[0].added.index < next {
      SortedStores(s, es[1..], next, ledger, depth);
      assert Unseen(es, next) == Unseen(es[1..], next);
    } else {
      var (s1, r1) := AfterLeaf(s, es[0], ledger, depth);
      PutSorted(s.db, RowOf(es[0], ledger));
      PutEntries(s.db, RowOf(es[0], ledger));
      SortedStores(s1, es[1..], next, ledger, depth);
      assert Unseen(es, next) == [es[0]] + Unseen(es[1..], next);
      StoredCons(s, es[0], s1, AfterSorted(s1, es[1..], next, ledger, depth).0, Unseen(es[1..], next), ledger);
    }
  }

  lemma BatchStores<T>(s: State<T>, events: seq<Event<T>>, ledger: nat, depth: nat)
    requires s.tree.Some? && Sorted(s.db) && AfterBatch(s, events, ledger, depth).1.Success?
    ensures AllLeaf(LeafEvents(events))
    ensures StoredUnseen(s, AfterBatch(s, events, ledger, depth).0,
      Unseen(SortByIndex(LeafEvents(events)), |s.tree.value|), ledger)
  {
    LeafEventsAreLeaf(events);
    SortedStores(s, SortByIndex(LeafEvents(events)), |s.tree.value|, ledger, depth);
  }

  /** The table entries that events make: index, leaf, published root, and their own ledger or
      the default one. */
  function EntriesOf<T>(u: seq<Event<T>>, ledger: nat): map<nat, Leaf<T>>
    requires AllLeaf(u)
  {
    if u == [] then map[]
    else
      map[u[0].added.index :=
        Leaf(u[0].added.leaf, u[0].added.root, if u[0].ledger == 0 then ledger else u[0].ledger)]
      + EntriesOf(u[1..], ledger)
  }

  /** From s to s' the events u have been appended to the tree and stored as rows. */
  ghost predicate StoredUnseen<T>(s: State<T>, s': State<T>, u: seq<Event<T>>, ledger: nat)
    requires s.tree.Some? && AllLeaf(u)
  {
    && s'.tree == Some(s.tree.value + TreeOf(u))
    && Sorted(s'.db) && Entries(s'.db) == Entries(s.db) + EntriesOf(u, ledger)
  }

  lemma StoredCons<T>(s: State<T>, e: Event<T>, s1: State<T>, s': State<T>, rest: seq<Event<T>>, ledger: nat)
    requires s.tree.Some? && e.LeafEvent? && AllLeaf(rest)
    requires s1.tree == Some(s.tree.value + [e.added.leaf])
    requires Entries(s1.db) == Entries(s.db)[e.added.index :=
      Leaf(e.added.leaf, e.added.root, if e.ledger == 0 then ledger else e.ledger)]
    requires StoredUnseen(s1, s', rest, ledger)
    ensures StoredUnseen(s, s', [e] + rest, ledger)
  {
    var row := Leaf(e.added.leaf, e.added.root, if e.ledger == 0 then ledger else e.ledger);
    EntriesOfCons(e, rest, ledger);
    UpdateThenAdd(Entries(s.db), e.added.index, row, EntriesOf(rest, ledger));
    AppendLeaf(s.tree.value, e, rest);
  }

  lemma EntriesOfCons<T>(e: Event<T>, rest: seq<Event<T>>, ledger: nat)
    requires e.LeafEvent? && AllLeaf(rest)
    ensures EntriesOf([e] + rest, ledger) ==
      map[e.added.index := Leaf(e.added.leaf, e.added.root, if e.ledger == 0 then ledger else e.ledger)]
      + EntriesOf(rest, ledger)
  {
    assert ([e] + rest)[1..] == rest;
  }

  lemma AppendLeaf<T>(leaves: seq<T>, e: Event<T>, rest: seq<Event<T>>)
    requires e.LeafEvent? && AllLeaf(rest)
    ensures leaves + TreeOf([e] + rest) == (leaves + [e.added.leaf]) + TreeOf(rest)
  {
    assert TreeOf([e] + rest) == [e.added.leaf] + TreeOf(rest);
  }

  lemma UpdateThenAdd<K, V>(a: map<K, V>, k: K, v: V, b: map<K, V>)
    ensures a[k := v] + b == a + (map[k := v] + b)
  {
  }

  /** A refused sorted batch: its events before some unseen one are accepted, and of that one
      the row is stored but the tree does not take it, being out of order or full. */
  lemma {:induction false} SortedRefusedAt<T>(s: State<T>, es: seq<Event<T>>, next: nat, ledger: nat, depth: nat)
    returns (k: nat)
    requires s.tree.Some? && AllLeaf(es) && AfterSorted(s, es, next, ledger, depth).1.Failure?
    ensures k < |es| && es[k].added.index >= next
    ensures var (p, ok) := AfterSorted(s, es[..k], next, ledger, depth);
      && ok.Success? && p.tree.Some?
      && AfterSorted(s, es, next, ledger, depth) ==
           (State(Put(p.db, RowOf(es[k], ledger)), p.tree),
            Failure(if es[k].added.index != |p.tree.value| then OutOfOrder else TreeFull))
      && (es[k].added.index == |p.tree.value| ==> |p.tree.value| >= Pow2(depth))
    decreases |es|
  {
    var unseen := es[0].added.index >= next;
    var s1 := if unseen then AfterLeaf(s, es[0], ledger, depth).0 else s;
    if unseen && AfterLeaf(s, es[0], ledger, depth).1.Failure? {
      k := 0;
    } else {
      k := SortedRefusedAt(s1, es[1..], next, ledger, depth);
      assert es[..k + 1][1..] == es[1..][..k] && es[..k + 1][0] == es[0];
      k := k + 1;
    }
  }

  lemma {:induction false} UninitialisedStores<T>(s: State<T>, es: seq<Event<T>>, ledger: nat, depth: nat)
    requires s.tree.None? && AllLeaf(es)
    ensures AfterSorted(s, es, 0, ledger, depth).0.tree.None?
    ensures AfterSorted(s, es, 0, ledger, depth).1 == Success(|es|)
    decreases |es|
  {
    if es != [] { UninitialisedStores(AfterLeaf(s, es[0], ledger, depth).0, es[1..], ledger, depth); }
  }

  /** A store that is not initialised takes every leaf event and only stores rows. */
  lemma UninitialisedBatch<T>(s: State<T>, events: seq<Event<T>>, ledger: nat, depth: nat)
    requires s.tree.None?
    ensures AfterBatch(s, events, ledger, depth).0.tree.None?
    ensures AfterBatch(s, events, ledger, depth).1 == Success(|LeafEvents(events)|)
  {
    LeafEventsAreLeaf(events);
    UninitialisedStores(s, SortByIndex(LeafEvents(events)), ledger, depth);
  }

  // ----- agreement with the contract

  function Added<T>(log: seq<Event<T>>): (a: seq<LeafAdded<T>>)
    requires AllLeaf(log)
    ensures |a| == |log| && forall i :: 0 <= i < |log| ==> a[i] == log[i].added
  {
    seq(|log|, i requires 0 <= i < |log| => log[i].added)
  }

  /** Published insertions in index order, each in some ledger, that fit the tree. */
  ghost predicate Published<T>(log: seq<Event<T>>, depth: nat) {
    && AllLeaf(log) && |log| <= Pow2(depth)
    && forall i :: 0 <= i < |log| ==> log[i].added.index == i && log[i].ledger > 0
  }

  /** The events a contract has published, with their ledgers. */
  ghost predicate IsEventLog<T>(h: Compression<T>, zero: T, depth: nat, log: seq<Event<T>>) {
    Published(log, depth) && IsLog(h, zero, depth, Added(log))
  }

  /** One row for each event: its index, leaf, published root and ledger. */
  function TableOf<T>(log: seq<Event<T>>): (t: seq<Row<Leaf<T>>>)
    requires AllLeaf(log)
    ensures |t| == |log| && forall i :: 0 <= i < |log| ==>
      t[i] == Row(log[i].added.index, Leaf(log[i].added.leaf, log[i].added.root, log[i].ledger))
  {
    seq(|log|, i requires 0 <= i < |log| =>
      Row(log[i].added.index, Leaf(log[i].added.leaf, log[i].added.root, log[i].ledger)))
  }

  function TreeOf<T>(log: seq<Event<T>>): (leaves: seq<T>)
    requires AllLeaf(log)
    ensures |leaves| == |log| && forall i :: 0 <= i < |log| ==> leaves[i] == log[i].added.leaf
  {
    LeavesOf(Added(log))
  }

  /** Table and tree hold exactly the first n events of the log. */
  ghost predicate Replica<T>(s: State<T>, log: seq<Event<T>>, n: nat)
    requires AllLeaf(log)
  {
    n <= |log| && s.db == TableOf(log[..n]) && s.tree == Some(TreeOf(log[..n]))
  }

  /** What a replica has stored: row by row the index, the leaf, the published root and the
      ledger of the log's events, the stored root being the tree root of the leaves so far. */
  lemma ReplicaRows<T>(h: Compression<T>, zero: T, depth: nat, log: seq<Event<T>>, s: State<T>, n: nat, i: nat)
    requires IsEventLog(h, zero, depth, log) && Replica(s, log, n) && i < n
    ensures |s.db| == |s.tree.value| == n
    ensures s.db[i].index == i && s.db[i].data.leaf == s.tree.value[i] == log[i].added.leaf
    ensures s.db[i].data.root == log[i].added.root == TreeRoot(h, zero, s.tree.value[..i + 1], depth)
    ensures s.db[i].data.ledger == log[i].ledger
  {
    assert Added(log)[i].root == log[i].added.root;
    assert s.tree.value[..i + 1] == LeavesOf(Added(log))[..i + 1];
  }

  /** The root of a replica is the one the contract published with its last leaf. */
  lemma ReplicaRoot<T>(h: Compression<T>, zero: T, depth: nat, log: seq<Event<T>>, s: State<T>, n: nat)
    requires IsEventLog(h, zero, depth, log) && Replica(s, log, n)
    ensures TreeRoot(h, zero, s.tree.value, depth) ==
      if n == 0 then ZeroAt(h, zero, depth) else log[n - 1].added.root
  {
    if n == 0 {
      EmptyNode(h, zero, s.tree.value, depth, 0);
    } else {
      assert TreeOf(log[..n]) == LeavesOf(Added(log))[..n];
      assert Added(log)[n - 1].root == log[n - 1].added.root;
    }
  }

  /** A replica of the whole log has the contract's current root. */
  lemma ReplicaMatchesContract<T>(contract: AspMembership<T>, log: seq<Event<T>>, s: State<T>)
    requires contract.Valid() && AllLeaf(log) && Added(log) == contract.log
    requires Replica(s, log, |log|)
    ensures TreeRoot(contract.compress, contract.zeroes[0], s.tree.value, contract.levels) == contract.root
  {
    assert log[..|log|] == log;
  }

  /** The leaf counts tell whether a replica is complete: with no fewer rows than the contract
      has leaves it has the contract's root, and with fewer it lacks the latest ones. */
  lemma LeafCountDecides<T>(contract: AspMembership<T>, log: seq<Event<T>>, s: State<T>, n: nat)
    requires contract.Valid() && Published(log, contract.levels) && Added(log) == contract.log
    requires Replica(s, log, n)
    ensures |s.db| < contract.nextIndex <==> n < |log|
    ensures |s.db| >= contract.nextIndex ==>
      TreeRoot(contract.compress, contract.zeroes[0], s.tree.value, contract.levels) == contract.root
  {
    if n == |log| { ReplicaMatchesContract(contract, log, s); }
  }

  lemma ReplicaStep<T>(depth: nat, log: seq<Event<T>>, s: State<T>, n: nat, ledger: nat)
    requires Published(log, depth) && Replica(s, log, n) && n < |log|
    ensures AfterLeaf(s, log[n], ledger, depth).1.Success?
    ensures Replica(AfterLeaf(s, log[n], ledger, depth).0, log, n + 1)
  {
    assert log[..n + 1] == log[..n] + [log[n]];
    PutLastRow(log, n, ledger);
    assert TreeOf(log[..n + 1]) == TreeOf(log[..n]) + [log[n].added.leaf];
  }

  lemma PutLastRow<T>(log: seq<Event<T>>, n: nat, ledger: nat)
    requires AllLeaf(log) && n < |log| && log[n].ledger > 0
    requires forall i :: 0 <= i < |log| ==> log[i].added.index == i
    ensures Put(TableOf(log[..n]), RowOf(log[n], ledger)) == TableOf(log[..n + 1])
  {
    PutLast(TableOf(log[..n]), RowOf(log[n], ledger));
    assert TableOf(log[..n + 1]) == TableOf(log[..n]) + [RowOf(log[n], ledger)];
  }

  /** A batch was accepted with `count` new events, and the replica is at n. */
  ghost predicate Reached<T>(p: (State<T>, Result<nat, Fault>), log: seq<Event<T>>, n: nat, count: int)
    requires AllLeaf(log)
  {
    p.1.Success? && p.1.value == count && Replica(p.0, log, n)
  }

  /** A slice of the log that starts at or before the next index brings the replica up to
      the slice's end. */
  lemma {:induction false} SliceReplicates<T>(depth: nat, log: seq<Event<T>>,
                                              s: State<T>, next: nat, i: nat, b: nat, ledger: nat)
    requires Published(log, depth) && i <= b <= |log|
    requires Replica(s, log, Max(i, next))
    ensures Reached(AfterSorted(s, log[i..b], next, ledger, depth), log, Max(b, next),
        Max(b, next) - Max(i, next))
    decreases b - i
  {
    if i < b {
      var es := log[i..b];
      assert es[0] == log[i] && es[1..] == log[i + 1..b];
      if i >= next {
        ReplicaStep(depth, log, s, i, ledger);
        SliceReplicates(depth, log, AfterLeaf(s, log[i], ledger, depth).0, next, i + 1, b, ledger);
      } else {
        SliceReplicates(depth, log, s, next, i + 1, b, ledger);
      }
    }
  }

  /** The leaf events of a batch are log[a..b] in any order. */
  ghost predicate IsSlice<T>(events: seq<Event<T>>, log: seq<Event<T>>, a: nat, b: nat) {
    a <= b <= |log| && multiset(LeafEvents(events)) == multiset(log[a..b])
  }

  /** A slice is accepted exactly if it starts at or before the next index, or is empty; it
      then brings the replica to its end. */
  lemma BatchReplicates<T>(depth: nat, log: seq<Event<T>>,
                           s: State<T>, n: nat, events: seq<Event<T>>, a: nat, b: nat, ledger: nat)
    requires Published(log, depth) && Replica(s, log, n)
    requires IsSlice(events, log, a, b)
    ensures AfterBatch(s, events, ledger, depth).1.Success? <==> a <= n || a == b
    ensures a <= n ==> Reached(AfterBatch(s, events, ledger, depth), log, Max(b, n), Max(b, n) - n)
    ensures a == b ==> AfterBatch(s, events, ledger, depth) == (s, Success(0))
  {
    if a <= n {
      SliceIsSorted(depth, log, events, a, b);
      SortedBatch(s, events, log[a..b], ledger, depth);
      SliceReplicates(depth, log, s, n, a, b, ledger);
    } else if a < b {
      LateSliceBlocks(depth, log, s, n, events, a, b, ledger);
    }
    if a == b {
      SliceIsSorted(depth, log, events, a, b);
    }
  }

  /** A slice that starts after the next index is refused at its first event, whose row stays
      in the table: the tree is as it was, and every restart stops at the gap. */
  lemma LateSliceBlocks<T>(depth: nat, log: seq<Event<T>>,
                           s: State<T>, n: nat, events: seq<Event<T>>, a: nat, b: nat, ledger: nat)
    requires Published(log, depth) && Replica(s, log, n)
    requires IsSlice(events, log, a, b) && n < a < b
    ensures var row := Row(a, Leaf(log[a].added.leaf, log[a].added.root, log[a].ledger));
      var after := State(s.db + [row], s.tree);
      && AfterBatch(s, events, ledger, depth) == (after, Failure(OutOfOrder))
      && AfterInit(after, depth) == (after, Failure(GapInIndices))
  {
    SliceIsSorted(depth, log, events, a, b);
    SortedBatch(s, events, log[a..b], ledger, depth);
    var es, db := log[a..b], s.db + [RowOf(log[a], ledger)];
    assert es[0] == log[a];
    PutLast(s.db, RowOf(log[a], ledger));
    DenseUpTo(db, 0, n);
    assert db[..n] == s.db;
    assert DataLeaves(s.db) == TreeOf(log[..n]);
  }

  lemma {:induction false} DenseUpTo<R>(t: seq<Row<R>>, from: nat, n: nat)
    requires from <= n < |t| && t[n].index != n
    requires forall i :: 0 <= i < n ==> t[i].index == i
    ensures DensePrefix(t, from) == n
    decreases n - from
  {
    if from < n { DenseUpTo(t, from + 1, n); }
  }

  lemma SortedBatch<T>(s: State<T>, events: seq<Event<T>>, es: seq<Event<T>>, ledger: nat, depth: nat)
    requires AllLeaf(LeafEvents(events)) && es == SortByIndex(LeafEvents(events))
    ensures AfterBatch(s, events, ledger, depth) == AfterSorted(s, es, NextIndex(s), ledger, depth)
  {
  }

  lemma SliceIsSorted<T>(depth: nat, log: seq<Event<T>>, events: seq<Event<T>>, a: nat, b: nat)
    requires Published(log, depth) && IsSlice(events, log, a, b)
    ensures AllLeaf(LeafEvents(events)) && SortByIndex(LeafEvents(events)) == log[a..b]
  {
    LeafEventsAreLeaf(events);
    SortAscending(LeafEvents(events));
    assert StrictlyAscending(log[a..b]);
    SortedIs(SortByIndex(LeafEvents(events)), log[a..b]);
  }

  lemma {:induction false} DenseAll<R>(t: seq<Row<R>>, from: nat)
    requires from <= |t| && Dense(t)
    ensures DensePrefix(t, from) == |t|
    decreases |t| - from
  {
    if from < |t| { DenseAll(t, from + 1); }
  }

  /** Starting again from the table restores the tree. */
  lemma InitReplicates<T>(depth: nat, log: seq<Event<T>>, s: State<T>, n: nat)
    requires Published(log, depth) && n <= |log| && s.db == TableOf(log[..n])
    ensures var (s', r) := AfterInit(s, depth);
      r == Success(()) && Replica(s', log, n)
  {
    DenseAll(s.db, 0);
    assert s.db[..n] == s.db;
    assert DataLeaves(s.db) == TreeOf(log[..n]);
  }

  // ----- whole runs

  datatype Call<T> = Batch(events: seq<Event<T>>, ledger: nat) | Restart | ClearAll

  function AfterCall<T>(s: State<T>, call: Call<T>, depth: nat): (State<T>, bool) {
    match call
    case Batch(events, ledger) => var (s', r) := AfterBatch(s, events, ledger, depth); (s', r.Success?)
    case Restart => var (s', r) := AfterInit(s, depth); (s', r.Success?)
    case ClearAll => (State([], Some([])), true)
  }

  function RunCalls<T>(s: State<T>, calls: seq<Call<T>>, depth: nat): (State<T>, bool)
    decreases |calls|
  {
    if calls == [] then (s, true)
    else
      var (s1, ok1) := AfterCall(s, calls[0], depth);
      var (s2, ok2) := RunCalls(s1, calls[1..], depth);
      (s2, ok1 && ok2)
  }

  /** The batch is a slice of the log that starts at or before index n. */
  ghost predicate StartsInTime<T>(events: seq<Event<T>>, log: seq<Event<T>>, n: nat) {
    exists a: nat, b: nat :: IsSlice(events, log, a, b) && a <= n
  }

  /** Every batch of the run is a slice of the log that starts at or before the index the
      replica is at when the batch arrives. */
  ghost predicate Admissible<T>(s: State<T>, calls: seq<Call<T>>, log: seq<Event<T>>, depth: nat)
    decreases |calls|
  {
    calls != [] ==>
      && (calls[0].Batch? ==> StartsInTime(calls[0].events, log, NextIndex(s)))
      && Admissible(AfterCall(s, calls[0], depth).0, calls[1..], log, depth)
  }

  /** Over every run of batches, restarts and clears no error is raised, the table is a
      prefix of the log, and the local root is the one recorded for that prefix. */
  lemma {:induction false} RunAgrees<T>(h: Compression<T>, zero: T, depth: nat, log: seq<Event<T>>,
                                        s: State<T>, n: nat, calls: seq<Call<T>>) returns (n': nat)
    requires IsEventLog(h, zero, depth, log) && Replica(s, log, n)
    requires Admissible(s, calls, log, depth)
    ensures var (s', ok) := RunCalls(s, calls, depth);
      && ok && Replica(s', log, n')
      && TreeRoot(h, zero, s'.tree.value, depth) ==
           (if n' == 0 then ZeroAt(h, zero, depth) else log[n' - 1].added.root)
    decreases |calls|
  {
    if calls == [] {
      n' := n;
      ReplicaRoot(h, zero, depth, log, s, n);
    } else {
      var s1 := AfterCall(s, calls[0], depth).0;
      var n1 := CallAgrees(depth, log, s, n, calls[0]);
      n' := RunAgrees(h, zero, depth, log, s1, n1, calls[1..]);
    }
  }

  lemma SliceAcceptedIff<T>(depth: nat, log: seq<Event<T>>,
                            s: State<T>, n: nat, events: seq<Event<T>>, a: nat, b: nat, ledger: nat)
    requires Published(log, depth) && Replica(s, log, n) && IsSlice(events, log, a, b)
    ensures AfterBatch(s, events, ledger, depth).1.Success? <==> StartsInTime(events, log, n)
  {
    BatchReplicates(depth, log, s, n, events, a, b, ledger);
    if a == b {
      assert log[a..b] == log[0..0] && IsSlice(events, log, 0, 0);
    }
    if StartsInTime(events, log, n) {
      var a': nat, b': nat :| IsSlice(events, log, a', b') && a' <= n;
      BatchReplicates(depth, log, s, n, events, a', b', ledger);
    }
  }

  ghost predicate AllSlices<T>(calls: seq<Call<T>>, log: seq<Event<T>>) {
    forall i :: 0 <= i < |calls| && calls[i].Batch? ==> exists a: nat, b: nat :: IsSlice(calls[i].events, log, a, b)
  }

  /** Over every run whose batches are slices of the log: nothing is refused exactly if every
      batch starts at or before the index the replica is at. */
  lemma {:induction false} RunAcceptedIff<T>(depth: nat, log: seq<Event<T>>, s: State<T>, n: nat, calls: seq<Call<T>>)
    requires Published(log, depth) && Replica(s, log, n) && AllSlices(calls, log)
    ensures RunCalls(s, calls, depth).1 <==> Admissible(s, calls, log, depth)
    decreases |calls|
  {
    if calls != [] {
      var call := calls[0];
      if call.Batch? {
        var a: nat, b: nat :| IsSlice(call.events, log, a, b);
        SliceAcceptedIff(depth, log, s, n, call.events, a, b, call.ledger);
      }
      if call.Batch? ==> StartsInTime(call.events, log, n) {
        var n1 := CallAgrees(depth, log, s, n, call);
        assert forall i :: 0 <= i < |calls[1..]| ==> calls[1..][i] == calls[i + 1];
        RunAcceptedIff(depth, log, AfterCall(s, call, depth).0, n1, calls[1..]);
      }
    }
  }

  lemma CallAgrees<T>(depth: nat, log: seq<Event<T>>,
                      s: State<T>, n: nat, call: Call<T>) returns (n': nat)
    requires Published(log, depth) && Replica(s, log, n)
    requires call.Batch? ==> StartsInTime(call.events, log, n)
    ensures AfterCall(s, call, depth).1 && Replica(AfterCall(s, call, depth).0, log, n')
    ensures !call.ClearAll? ==> n' >= n
  {
    match call
    case Batch(events, ledger) =>
      var a: nat, b: nat :| IsSlice(events, log, a, b) && a <= n;
      BatchReplicates(depth, log, s, n, events, a, b, ledger);
      n' := Max(b, n);
    case Restart =>
      InitReplicates(depth, log, s, n);
      n' := n;
    case ClearAll =>
      n' := 0;
      assert log[..0] == [];
  }
}
