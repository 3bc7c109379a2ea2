/** The client's replica of the pool: tables of commitments, outputs and nullifiers, and a
    live tree that is rebuilt from the commitments after each sync. */
module PoolStore {
  import opened Common
  import opened Bits
  import opened MerkleSpec
  import opened MerkleContracts
  import opened IndexedTable

  datatype Event<T> =
    | NewCommitment(commitment: T, index: nat, output: string, ledger: nat)
    | NewNullifier(nullifier: T, ledger: nat)
    | OtherEvent

  datatype Leaf<T> = Leaf(commitment: T, ledger: nat)

  datatype Output = Output(index: nat, output: string, ledger: nat)

  datatype State<T> = State(
    leaves: seq<Row<Leaf<T>>>,
    outputs: map<T, Output>,
    nullifiers: map<T, nat>,
    tree: Option<seq<T>>)

  datatype Counts = Counts(commitments: nat, nullifiers: nat)

  function LedgerOf(own: nat, default: nat): nat { if own == 0 then default else own }

  function RowOf<T>(e: Event<T>, ledger: nat): Row<Leaf<T>>
    requires e.NewCommitment?
  {
    Row(e.index, Leaf(e.commitment, LedgerOf(e.ledger, ledger)))
  }

  /** One event on the tables. */
  function Stored<T>(s: State<T>, e: Event<T>, ledger: nat): State<T> {
    match e
    case NewCommitment(c, i, o, l) =>
      s.(leaves := Put(s.leaves, RowOf(e, ledger)),
         outputs := s.outputs[c := Output(i, o, LedgerOf(l, ledger))])
    case NewNullifier(n, l) => s.(nullifiers := s.nullifiers[n := LedgerOf(l, ledger)])
    case OtherEvent => s
  }

  /** A batch on the tables. */
  function StoredAll<T>(s: State<T>, events: seq<Event<T>>, ledger: nat): State<T>
    decreases |events|
  {
    if events == [] then s else StoredAll(Stored(s, events[0], ledger), events[1..], ledger)
  }

  /** The commitments of a batch, in order of arrival: what the live tree is fed. */
  function Commitments<T>(events: seq<Event<T>>): seq<T> {
    if events == [] then []
    else (if events[0].NewCommitment? then [events[0].commitment] else []) + Commitments(events[1..])
  }

  function CountNullifiers<T>(events: seq<Event<T>>): nat {
    if events == [] then 0
    else (if events[0].NewNullifier? then 1 else 0) + CountNullifiers(events[1..])
  }

  function Leaves<T>(t: seq<Row<Leaf<T>>>): (leaves: seq<T>)
    ensures |leaves| == |t| && forall i :: 0 <= i < |t| ==> leaves[i] == t[i].data.commitment
  {
    seq(|t|, i requires 0 <= i < |t| => t[i].data.commitment)
  }

  /** The live tree replaced by one of the stored commitments in index order, as many as fit. */
  function Rebuilt<T>(s: State<T>, depth: nat): State<T> {
    s.(tree := Some(Leaves(s.leaves)[..Min(|s.leaves|, Pow2(depth))]))
  }

  /** The live tree has room for all commitments of the batch. */
  predicate Fits<T>(s: State<T>, events: seq<Event<T>>, depth: nat) {
    s.tree.None? || Commitments(events) == []
      || |s.tree.value| + |Commitments(events)| <= Pow2(depth)
  }

  /** Another row has the event's commitment; the table's index on commitments is unique. */
  predicate Clashes<T(==)>(t: seq<Row<Leaf<T>>>, e: Event<T>)
    requires e.NewCommitment?
  {
    exists r :: r in t && r.data.commitment == e.commitment && r.index != e.index
  }

  /** One event on tables and live tree, which takes a commitment whatever its index is. A
      clashing row is not written; one that the tree has no room for is. */
  function AfterEvent<T(==)>(s: State<T>, e: Event<T>, ledger: nat, depth: nat): (State<T>, bool) {
    var s' := Stored(s, e, ledger);
    if !e.NewCommitment? then (s', true)
    else if Clashes(s.leaves, e) then (s, false)
    else if s.tree.None? then (s', true)
    else if |s.tree.value| >= Pow2(depth) then (s', false)
    else (s'.(tree := Some(s.tree.value + [e.commitment])), true)
  }

  /** A batch, which stops at the first commitment that is refused. */
  function AfterEvents<T(==)>(s: State<T>, events: seq<Event<T>>, ledger: nat, depth: nat): (State<T>, Option<Counts>)
    decreases |events|
  {
    if events == [] then (s, Some(Counts(0, 0)))
    else
      var (s', ok) := AfterEvent(s, events[0], ledger, depth);
      if ok then Plus(CountsOf(events[0]), AfterEvents(s', events[1..], ledger, depth)) else (s', None)
  }

  function CountsOf<T>(e: Event<T>): Counts {
    Counts(if e.NewCommitment? then 1 else 0, if e.NewNullifier? then 1 else 0)
  }

  function Plus<T>(c: Counts, p: (State<T>, Option<Counts>)): (State<T>, Option<Counts>) {
    (p.0, if p.1.None? then None
          else Some(Counts(c.commitments + p.1.value.commitments, c.nullifiers + p.1.value.nullifiers)))
  }

  /** The events from i on, with the counts of those before. */
  function Remaining<T(==)>(count: Counts, s: State<T>, events: seq<Event<T>>, i: nat, ledger: nat,
                        depth: nat): (State<T>, Option<Counts>)
    requires i <= |events|
  {
    Plus(count, AfterEvents(s, events[i..], ledger, depth))
  }

  lemma RemainingStep<T>(count: Counts, s: State<T>, events: seq<Event<T>>, i: nat, ledger: nat, depth: nat)
    requires i < |events|
    ensures var (s', ok) := AfterEvent(s, events[i], ledger, depth);
      var c := CountsOf(events[i]);
      Remaining(count, s, events, i, ledger, depth) ==
        if !ok then (s', None)
        else Remaining(Counts(count.commitments + c.commitments, count.nullifiers + c.nullifiers), s', events, i + 1,
                       ledger, depth)
  {
    assert events[i..][1..] == events[i + 1..];
  }

  class PoolStore<T(==)> {
    const depth: nat
    var leaves: seq<Row<Leaf<T>>>
    var outputs: map<T, Output>
    var nullifiers: map<T, nat>
    var tree: Option<seq<T>>

    function Now(): State<T>
      reads this
    {
      State(leaves, outputs, nullifiers, tree)
    }

    constructor (depth: nat)
      ensures this.depth == depth && Now() == State([], map[], map[], None)
    {
      this.depth := depth;
      leaves, outputs, nullifiers, tree := [], map[], map[], None;
    }

    /** A new tree with the stored commitments in index order; a gap is only warned of. If
        there are too many, it stays full with the first of them. */
    method RebuildTree() returns (count: Option<nat>)
      modifies this`tree
      ensures count == if |leaves| <= Pow2(depth) then Some(|leaves|) else None
      ensures Now() == Rebuilt(old(Now()), depth)
    {
      tree := Some([]);
      for i := 0 to |leaves|
        invariant i <= Pow2(depth) && tree == Some(Leaves(leaves[..i]))
        modifies this`tree
      {
        if i >= Pow2(depth) {
          assert Leaves(leaves[..i]) == Leaves(leaves)[..i];
          return None;
        }
        assert Leaves(leaves[..i + 1]) == Leaves(leaves[..i]) + [leaves[i].data.commitment];
        tree := Some(tree.value + [leaves[i].data.commitment]);
      }
      assert leaves[..|leaves|] == leaves && Leaves(leaves)[..|leaves|] == Leaves(leaves);
      count := Some(|leaves|);
    }

    method ProcessNewCommitment(e: Event<T>, ledger: nat) returns (ok: bool)
      requires e.NewCommitment?
      modifies this
      ensures (Now(), ok) == AfterEvent(old(Now()), e, ledger, depth)
      ensures Clashes(old(leaves), e) ==> !ok && Now() == old(Now())
      ensures !Clashes(old(leaves), e) ==>
        && outputs == old(outputs)[e.commitment :=
             Output(e.index, e.output, if e.ledger == 0 then ledger else e.ledger)]
        && (Sorted(old(leaves)) ==> Entries(leaves) == Entries(old(leaves))[e.index :=
             Leaf(e.commitment, if e.ledger == 0 then ledger else e.ledger)])
        && nullifiers == old(nullifiers)
        && (ok <==> old(tree).None? || |old(tree).value| < Pow2(depth))
        && tree == if ok && old(tree).Some? then Some(old(tree).value + [e.commitment]) else old(tree)
    {
      if Sorted(leaves) { PutEntries(leaves, RowOf(e, ledger)); }
      if Clashes(leaves, e) {
        return false;
      }
      leaves := Put(leaves, RowOf(e, ledger));
      outputs := outputs[e.commitment := Output(e.index, e.output, LedgerOf(e.ledger, ledger))];
      if tree.Some? {
        if |tree.value| >= Pow2(depth) {
          return false;
        }
        tree := Some(tree.value + [e.commitment]);
      }
      ok := true;
    }

    method ProcessNewNullifier(e: Event<T>, ledger: nat)
      requires e.NewNullifier?
      modifies this`nullifiers
      ensures Now() == Stored(old(Now()), e, ledger)
      ensures nullifiers == old(nullifiers)[e.nullifier := if e.ledger == 0 then ledger else e.ledger]
    {
      nullifiers := nullifiers[e.nullifier := LedgerOf(e.ledger, ledger)];
    }

    method ProcessEvents(events: seq<Event<T>>, ledger: nat) returns (res: Option<Counts>)
      modifies this
      ensures (Now(), res) == AfterEvents(old(Now()), events, ledger, depth)
    {
      var count := Counts(0, 0);
      ghost var want := AfterEvents(Now(), events, ledger, depth);
      assert events[0..] == events;
      for i := 0 to |events|
        invariant want == Remaining(count, Now(), events, i, ledger, depth)
      {
        RemainingStep(count, Now(), events, i, ledger, depth);
        match events[i] {
          case NewCommitment(_, _, _, _) =>
            var ok := ProcessNewCommitment(events[i], ledger);
            if !ok {
              return None;
            }
            count := count.(commitments := count.commitments + 1);
          case NewNullifier(_, _) =>
            ProcessNewNullifier(events[i], ledger);
            count := count.(nullifiers := count.nullifiers + 1);
          case OtherEvent =>
        }
      }
      res := Some(count);
    }
  }

  // ----- when a batch is accepted

  /** No two rows have the same commitment. */
  ghost predicate Distinct<T>(t: seq<Row<Leaf<T>>>) {
    forall r, q :: r in t && q in t && r.data.commitment == q.data.commitment ==> r == q
  }

  /** What the database keeps true of the table. */
  ghost predicate ValidTable<T>(t: seq<Row<Leaf<T>>>) { Sorted(t) && Distinct(t) }

  /** While the batch is stored row by row, the table never has a commitment twice. */
  ghost predicate NeverTwice<T>(s: State<T>, events: seq<Event<T>>, ledger: nat) {
    forall i :: 0 <= i <= |events| ==> Distinct(StoredAll(s, events[..i], ledger).leaves)
  }

  lemma {:induction false} PutRows<T>(t: seq<Row<Leaf<T>>>, row: Row<Leaf<T>>)
    requires Sorted(t)
    ensures forall r :: r in Put(t, row) <==> r == row || (r in t && r.index != row.index)
  {
    if t != [] {
      assert t == [t[0]] + t[1..];
      if row.index > t[0].index {
        PutRows(t[1..], row);
      } else {
        assert forall r :: r in t[1..] ==> r.index > t[0].index;
      }
    }
  }

  /** A row leaves the commitments distinct exactly if it does not clash. */
  lemma PutDistinctIff<T>(t: seq<Row<Leaf<T>>>, e: Event<T>, ledger: nat)
    requires ValidTable(t) && e.NewCommitment?
    ensures Sorted(Put(t, RowOf(e, ledger)))
    ensures Distinct(Put(t, RowOf(e, ledger))) <==> !Clashes(t, e)
  {
    var row := RowOf(e, ledger);
    PutSorted(t, row);
    PutRows(t, row);
    assert row in Put(t, row);
    if Clashes(t, e) {
      var r :| r in t && r.data.commitment == e.commitment && r.index != e.index;
      assert r in Put(t, row);
    }
  }

  lemma NeverTwiceCons<T>(s: State<T>, events: seq<Event<T>>, ledger: nat)
    requires events != [] && Distinct(s.leaves)
    ensures NeverTwice(s, events, ledger) <==> NeverTwice(Stored(s, events[0], ledger), events[1..], ledger)
  {
    var s1, rest := Stored(s, events[0], ledger), events[1..];
    forall i | 0 <= i <= |rest|
      ensures StoredAll(s, events[..i + 1], ledger) == StoredAll(s1, rest[..i], ledger)
    {
      assert events[..i + 1][1..] == rest[..i];
    }
    if NeverTwice(s, events, ledger) {
      forall i | 0 <= i <= |rest| ensures Distinct(StoredAll(s1, rest[..i], ledger).leaves) {
        assert Distinct(StoredAll(s, events[..i + 1], ledger).leaves);
      }
    }
    if NeverTwice(s1, rest, ledger) {
      forall i | 0 <= i <= |events| ensures Distinct(StoredAll(s, events[..i], ledger).leaves) {
        if i > 0 { assert Distinct(StoredAll(s1, rest[..i - 1], ledger).leaves); }
      }
    }
  }

  lemma NeverTwiceSameTable<T>(s: State<T>, t: State<T>, events: seq<Event<T>>, ledger: nat)
    requires s.(tree := t.tree) == t
    ensures NeverTwice(s, events, ledger) <==> NeverTwice(t, events, ledger)
  {
    forall i | 0 <= i <= |events|
      ensures StoredAll(s, events[..i], ledger).leaves == StoredAll(t, events[..i], ledger).leaves
    {
      TreeApart(s, t, events[..i], ledger);
    }
  }

  /** What an event needs to be accepted, and that it keeps the table valid. */
  lemma EventAcceptedIff<T>(s: State<T>, e: Event<T>, ledger: nat, depth: nat)
    requires ValidTable(s.leaves)
    ensures AfterEvent(s, e, ledger, depth).1 <==> Fits(s, [e], depth) && Distinct(Stored(s, e, ledger).leaves)
    ensures ValidTable(AfterEvent(s, e, ledger, depth).0.leaves)
  {
    FedCons(s.tree, e, []);
    if e.NewCommitment? { PutDistinctIff(s.leaves, e, ledger); }
  }

  /** Accepted exactly if the live tree, replays included, has room for the batch and no
      commitment comes to be stored twice; then the tables hold the events and the tree the
      commitments, in order of arrival. */
  lemma {:induction false} BatchAcceptedIff<T>(s: State<T>, events: seq<Event<T>>, ledger: nat, depth: nat)
    requires ValidTable(s.leaves)
    ensures var (s', res) := AfterEvents(s, events, ledger, depth);
      && ValidTable(s'.leaves)
      && (res.Some? <==> Fits(s, events, depth) && NeverTwice(s, events, ledger))
      && (res.Some? ==>
            && res.value == Counts(|Commitments(events)|, CountNullifiers(events))
            && s' == StoredAll(s, events, ledger).(tree := Fed(s.tree, events)))
    decreases |events|
  {
    if events == [] {
      assert s.tree.Some? ==> s.tree.value + [] == s.tree.value;
    } else {
      var e, rest := events[0], events[1..];
      var (s1, ok) := AfterEvent(s, e, ledger, depth);
      EventAcceptedIff(s, e, ledger, depth);
      NeededByHead(s, events, ledger, depth);
      if ok {
        BatchAcceptedIff(s1, rest, ledger, depth);
        FedOne(s, e, ledger, depth);
        AfterHead(s, e, s1, rest, ledger);
        assert events == [e] + rest;
        FedCons(s.tree, e, rest);
      }
    }
  }

  /** What a batch needs: what its first event needs, and what the others need after it. */
  lemma NeededByHead<T>(s: State<T>, events: seq<Event<T>>, ledger: nat, depth: nat)
    requires events != [] && ValidTable(s.leaves)
    ensures var s1 := Stored(s, events[0], ledger).(tree := Fed(s.tree, [events[0]]));
      && (Fits(s, events, depth) <==> Fits(s, [events[0]], depth) && Fits(s1, events[1..], depth))
      && (NeverTwice(s, events, ledger) <==>
            Distinct(Stored(s, events[0], ledger).leaves) && NeverTwice(s1, events[1..], ledger))
  {
    var e, rest := events[0], events[1..];
    assert events == [e] + rest;
    FedCons(s.tree, e, rest);
    NeverTwiceCons(s, events, ledger);
    NeverTwiceSameTable(Stored(s, e, ledger), Stored(s, e, ledger).(tree := Fed(s.tree, [e])), rest, ledger);
    assert rest[..0] == [];
    assert StoredAll(Stored(s, e, ledger), rest[..0], ledger) == Stored(s, e, ledger);
  }

  lemma AfterHead<T>(s: State<T>, e: Event<T>, s1: State<T>, rest: seq<Event<T>>, ledger: nat)
    requires s1 == Stored(s, e, ledger).(tree := Fed(s.tree, [e]))
    ensures StoredAll(s1, rest, ledger).(tree := Fed(s1.tree, rest))
         == StoredAll(s, [e] + rest, ledger).(tree := Fed(s.tree, [e] + rest))
  {
    assert ([e] + rest)[1..] == rest;
    FedCons(s.tree, e, rest);
    TreeApart(Stored(s, e, ledger), s1, rest, ledger);
  }

  /** A live tree after a batch it has room for. */
  function Fed<T>(tree: Option<seq<T>>, events: seq<Event<T>>): Option<seq<T>> {
    if tree.None? then None else Some(tree.value + Commitments(events))
  }

  lemma FedOne<T>(s: State<T>, e: Event<T>, ledger: nat, depth: nat)
    requires AfterEvent(s, e, ledger, depth).1
    ensures AfterEvent(s, e, ledger, depth).0 == Stored(s, e, ledger).(tree := Fed(s.tree, [e]))
  {
    FedCons(s.tree, e, []);
    if s.tree.Some? && !e.NewCommitment? { assert s.tree.value + [] == s.tree.value; }
  }

  lemma FedCons<T>(tree: Option<seq<T>>, e: Event<T>, rest: seq<Event<T>>)
    ensures Fed(tree, [e] + rest) == Fed(Fed(tree, [e]), rest)
    ensures Commitments([e]) == if e.NewCommitment? then [e.commitment] else []
    ensures Commitments([e] + rest) == Commitments([e]) + Commitments(rest)
  {
    var c := if e.NewCommitment? then [e.commitment] else [];
    assert [e][1..] == [] && ([e] + rest)[1..] == rest;
    assert Commitments([e]) == c + Commitments([]) == c;
    assert Commitments([e] + rest) == c + Commitments(rest);
    if tree.Some? {
      assert (tree.value + c) + Commitments(rest) == tree.value + (c + Commitments(rest));
    }
  }

  /** The tables do not depend on the tree. */
  lemma {:induction false} TreeApart<T>(s: State<T>, t: State<T>, events: seq<Event<T>>, ledger: nat)
    requires s.(tree := t.tree) == t
    ensures StoredAll(t, events, ledger) == StoredAll(s, events, ledger).(tree := t.tree)
    decreases |events|
  {
    if events != [] {
      TreeApart(Stored(s, events[0], ledger), Stored(t, events[0], ledger), events[1..], ledger);
    }
  }

  /** A rejected batch: its events before some commitment are accepted, and that commitment is
      not, because it clashes, and then nothing more is stored, or because the tree is full,
      and then its row is. */
  lemma {:induction false} BatchRejectedAt<T>(s: State<T>, events: seq<Event<T>>, ledger: nat, depth: nat)
    returns (k: nat)
    requires ValidTable(s.leaves) && !(Fits(s, events, depth) && NeverTwice(s, events, ledger))
    ensures k < |events| && events[k].NewCommitment?
    ensures Fits(s, events[..k], depth) && NeverTwice(s, events[..k], ledger)
    ensures var before := StoredAll(s, events[..k], ledger).(tree := Fed(s.tree, events[..k]));
      if Clashes(before.leaves, events[k]) then AfterEvents(s, events, ledger, depth) == (before, None)
      else
        && before.tree.Some? && |before.tree.value| >= Pow2(depth)
        && AfterEvents(s, events, ledger, depth) == (Stored(before, events[k], ledger), None)
    decreases |events|
  {
    BatchAcceptedIff(s, events, ledger, depth);
    var (s1, ok) := AfterEvent(s, events[0], ledger, depth);
    EventAcceptedIff(s, events[0], ledger, depth);
    if ok {
      BatchAcceptedIff(s1, events[1..], ledger, depth);
      k := BatchRejectedAt(s1, events[1..], ledger, depth);
      var prefix := events[1..][..k];
      assert events[..k + 1] == [events[0]] + prefix;
      BatchAcceptedIff(s, events[..k + 1], ledger, depth);
      BatchAcceptedIff(s1, prefix, ledger, depth);
      k := k + 1;
    } else {
      k := 0;
      assert s.tree.Some? ==> s.tree.value + [] == s.tree.value;
    }
  }

  // ----- page by page

  /** The events of the pages, one after the other. */
  function Flat<E>(pages: seq<seq<E>>): seq<E> {
    if pages == [] then [] else pages[0] + Flat(pages[1..])
  }

  /** Batches one after the other, up to the first that is refused. */
  function AfterPages<T(==)>(s: State<T>, pages: seq<seq<Event<T>>>, ledger: nat, depth: nat): (State<T>, bool)
    decreases |pages|
  {
    if pages == [] then (s, true)
    else
      var (s', res) := AfterEvents(s, pages[0], ledger, depth);
      if res.None? then (s', false) else AfterPages(s', pages[1..], ledger, depth)
  }

  lemma {:induction false} BatchSplits<T>(s: State<T>, a: seq<Event<T>>, b: seq<Event<T>>, ledger: nat, depth: nat)
    ensures var (s', res) := AfterEvents(s, a, ledger, depth);
      var (s'', all) := AfterEvents(s, a + b, ledger, depth);
      var (t, rest) := AfterEvents(s', b, ledger, depth);
      if res.None? then (s'', all) == (s', None) else s'' == t && (all.Some? <==> rest.Some?)
    decreases |a|
  {
    if a == [] {
      assert a + b == b;
    } else {
      assert (a + b)[1..] == a[1..] + b;
      BatchSplits(AfterEvent(s, a[0], ledger, depth).0, a[1..], b, ledger, depth);
    }
  }

  /** However a stream of events is cut into pages, the store ends the same. */
  lemma {:induction false} PagesAreOneBatch<T>(s: State<T>, pages: seq<seq<Event<T>>>, ledger: nat, depth: nat)
    ensures var (s', res) := AfterEvents(s, Flat(pages), ledger, depth);
      AfterPages(s, pages, ledger, depth) == (s', res.Some?)
    decreases |pages|
  {
    if pages != [] {
      BatchSplits(s, pages[0], Flat(pages[1..]), ledger, depth);
      PagesAreOneBatch(AfterEvents(s, pages[0], ledger, depth).0, pages[1..], ledger, depth);
    }
  }

  /** Any list of pages is accepted exactly if the live tree has room for them all and no
      commitment comes to be stored twice. */
  lemma PagesAcceptedIff<T>(s: State<T>, pages: seq<seq<Event<T>>>, ledger: nat, depth: nat)
    requires ValidTable(s.leaves)
    ensures var (s', ok) := AfterPages(s, pages, ledger, depth);
      && ValidTable(s'.leaves)
      && (ok <==> Fits(s, Flat(pages), depth) && NeverTwice(s, Flat(pages), ledger))
      && (ok ==> s' == StoredAll(s, Flat(pages), ledger).(tree := Fed(s.tree, Flat(pages))))
  {
    PagesAreOneBatch(s, pages, ledger, depth);
    BatchAcceptedIff(s, Flat(pages), ledger, depth);
  }

  // ----- replays

  /** The contract's commitment events, one for each index in order. */
  ghost predicate IsLog<T>(log: seq<Event<T>>) {
    forall i :: 0 <= i < |log| ==> log[i].NewCommitment? && log[i].index == i && log[i].ledger > 0
  }

  /** One row for each event: its index, commitment and ledger. */
  function TableOf<T>(log: seq<Event<T>>): (t: seq<Row<Leaf<T>>>)
    requires IsLog(log)
    ensures |t| == |log| && forall i :: 0 <= i < |log| ==> t[i] == Row(i, Leaf(log[i].commitment, log[i].ledger))
  {
    seq(|log|, i requires 0 <= i < |log| => Row(i, Leaf(log[i].commitment, log[i].ledger)))
  }

  /** No commitment is in the log twice. */
  ghost predicate DistinctLog<T>(log: seq<Event<T>>)
    requires IsLog(log)
  {
    forall i, j :: 0 <= i < |log| && 0 <= j < |log| && log[i].commitment == log[j].commitment ==> i == j
  }

  /** Every commitment event of the batch is one of the log. */
  ghost predicate FromLog<T>(events: seq<Event<T>>, log: seq<Event<T>>) {
    forall e :: e in events && e.NewCommitment? ==> e.index < |log| && e == log[e.index]
  }

  ghost function Indices<T>(events: seq<Event<T>>): set<nat> {
    set e | e in events && e.NewCommitment? :: e.index
  }

  /** The table holds log rows only, those at the given indices. */
  ghost predicate Holds<T>(t: seq<Row<Leaf<T>>>, log: seq<Event<T>>, at: set<nat>)
    requires IsLog(log)
  {
    && Sorted(t)
    && Entries(t).Keys == at
    && forall k :: k in at ==> k < |log| && Entries(t)[k] == Leaf(log[k].commitment, log[k].ledger)
  }

  lemma PutHolds<T>(t: seq<Row<Leaf<T>>>, e: Event<T>, ledger: nat, log: seq<Event<T>>, at: set<nat>)
    requires IsLog(log) && Holds(t, log, at) && e.NewCommitment? && e.index < |log| && e == log[e.index]
    ensures Holds(Put(t, RowOf(e, ledger)), log, at + {e.index})
  {
    PutSorted(t, RowOf(e, ledger));
    PutEntries(t, RowOf(e, ledger));
    assert RowOf(e, ledger) == Row(e.index, Leaf(log[e.index].commitment, log[e.index].ledger));
  }

  lemma IndicesCons<T>(e: Event<T>, rest: seq<Event<T>>)
    ensures Indices([e] + rest) == (if e.NewCommitment? then {e.index} else {}) + Indices(rest)
  {
    assert forall x :: x in [e] + rest <==> x == e || x in rest;
  }

  /** Replaying log events keeps to the log's rows; an accepted replay adds all of its own. */
  lemma {:induction false} ReplayHolds<T>(s: State<T>, events: seq<Event<T>>, ledger: nat, depth: nat,
      log: seq<Event<T>>, at: set<nat>) returns (at': set<nat>)
    requires IsLog(log) && FromLog(events, log) && Holds(s.leaves, log, at)
    ensures at <= at' && Holds(AfterEvents(s, events, ledger, depth).0.leaves, log, at')
    ensures AfterEvents(s, events, ledger, depth).1.Some? ==> at' == at + Indices(events)
    decreases |events|
  {
    at' := at;
    if events != [] {
      var e, rest := events[0], events[1..];
      assert events == [e] + rest;
      var (s1, ok) := AfterEvent(s, e, ledger, depth);
      if e.NewCommitment? && !Clashes(s.leaves, e) {
        PutHolds(s.leaves, e, ledger, log, at);
        at' := at + {e.index};
      }
      if ok {
        IndicesCons(e, rest);
        at' := ReplayHolds(s1, rest, ledger, depth, log, at');
      }
    }
  }

  ghost predicate HasAll(at: set<nat>, n: nat) {
    forall i :: 0 <= i < n ==> i in at
  }

  /** A table that holds the log at all its indices is the log's table. */
  lemma HoldsAll<T>(t: seq<Row<Leaf<T>>>, log: seq<Event<T>>, at: set<nat>)
    requires IsLog(log) && Holds(t, log, at) && HasAll(at, |log|)
    ensures t == TableOf(log)
  {
    var all := TableOf(log);
    assert Sorted(all);
    forall k: nat ensures k in Entries(all) <==> k < |log| {
      EntriesKeys(all, k);
      if k < |log| { assert all[k].index == k; }
    }
    forall k | k in Entries(all) ensures Entries(all)[k] == Entries(t)[k] { EntryAt(all, k); }
    EntriesDetermine(t, all);
  }

  /** Replay insensitivity: after any repeats and reorderings of the log's events that are
      accepted and cover every index, the rebuilt tree is that of the log applied once in
      order. */
  lemma ReplaysRebuild<T>(s: State<T>, pages: seq<seq<Event<T>>>, ledger: nat, depth: nat, log: seq<Event<T>>,
                          at: set<nat>)
    requires IsLog(log) && FromLog(Flat(pages), log) && Holds(s.leaves, log, at)
    requires HasAll(at + Indices(Flat(pages)), |log|) && AfterPages(s, pages, ledger, depth).1
    ensures var t := AfterPages(s, pages, ledger, depth).0.leaves;
      && t == TableOf(log)
      && |Leaves(t)| == |log| && forall i :: 0 <= i < |log| ==> Leaves(t)[i] == log[i].commitment
  {
    PagesAreOneBatch(s, pages, ledger, depth);
    var at' := ReplayHolds(s, Flat(pages), ledger, depth, log, at);
    HoldsAll(AfterPages(s, pages, ledger, depth).0.leaves, log, at');
  }

  /** The log is that of the contract's first k insertions. */
  ghost predicate IsLogOf<T>(log: seq<Event<T>>, pool: MerkleTreeWithHistory<T>, k: nat)
    reads pool
  {
    && IsLog(log) && |log| == 2 * k <= |pool.leaves|
    && forall i :: 0 <= i < |log| ==> log[i].commitment == pool.leaves[i]
  }

  /** A table of the contract's first k insertions, k being among its latest 90, rebuilds to a
      root that the contract accepts; a table of them all rebuilds to its last root. */
  lemma RebuiltRootIsKnown<T>(pool: MerkleTreeWithHistory<T>, k: nat, log: seq<Event<T>>, s: State<T>, at: set<nat>)
    requires pool.Valid() && pool.Initialized()
    requires IsLogOf(log, pool, k) && RecentAt(|pool.leaves| / 2, k)
    requires Holds(s.leaves, log, at) && HasAll(at, |log|)
    ensures var leaves := Rebuilt(s, pool.levels.value).tree.value;
      var root := TreeRoot(pool.compress, pool.zero, leaves, pool.levels.value);
      && leaves == pool.leaves[..2 * k]
      && Recent(pool.compress, pool.zero, pool.leaves, pool.levels.value, root)
      && pool.currentRootIndex.value in pool.roots
      && (2 * k == |pool.leaves| ==> root == pool.roots[pool.currentRootIndex.value])
  {
    HoldsAll(s.leaves, log, at);
    var leaves := Rebuilt(s, pool.levels.value).tree.value;
    assert leaves == pool.leaves[..2 * k];
    var n := |pool.leaves| / 2;
    assert RecentAt(n, n) && pool.leaves[..2 * n] == pool.leaves;
    assert RootAfter(pool.compress, pool.zero, pool.leaves, pool.levels.value, k)
        == TreeRoot(pool.compress, pool.zero, leaves, pool.levels.value);
  }

  /** Rebuilding puts every commitment at its own index exactly if no index below the
      highest is missing from the table. */
  lemma RebuildIsFaithfulIff<T>(t: seq<Row<Leaf<T>>>)
    requires Sorted(t)
    ensures Dense(t) <==> HasAll(Entries(t).Keys, |t|)
  {
    if Dense(t) {
      forall i | 0 <= i < |t| ensures i in Entries(t) {
        EntriesKeys(t, i);
        assert t[i].index == i;
      }
    }
    if HasAll(Entries(t).Keys, |t|) {
      NoGaps(t, 0);
    }
  }

  lemma {:induction false} NoGaps<T>(t: seq<Row<Leaf<T>>>, from: nat)
    requires Sorted(t) && from <= |t|
    requires forall i :: 0 <= i < from ==> t[i].index == i
    requires HasAll(Entries(t).Keys, |t|)
    ensures Dense(t)
    decreases |t| - from
  {
    if from < |t| {
      EntriesKeys(t, from);
      var j :| 0 <= j < |t| && t[j].index == from;
      if from > 0 { assert t[from - 1].index == from - 1; }
      assert j >= from;
      NoGaps(t, from + 1);
    }
  }

  // ----- when replays are accepted

  /** The commitment events of a batch. */
  function CommitmentEvents<T>(events: seq<Event<T>>): seq<Event<T>> {
    if events == [] then []
    else (if events[0].NewCommitment? then [events[0]] else []) + CommitmentEvents(events[1..])
  }

  lemma {:induction false} CommitmentEventsAre<T>(events: seq<Event<T>>)
    ensures |CommitmentEvents(events)| == |Commitments(events)|
    ensures forall e :: e in CommitmentEvents(events) <==> e in events && e.NewCommitment?
  {
    if events != [] {
      CommitmentEventsAre(events[1..]);
      assert events == [events[0]] + events[1..];
    }
  }

  /** A table of log rows has no commitment twice exactly if the log has none among them. */
  lemma HeldOnceIff<T>(t: seq<Row<Leaf<T>>>, log: seq<Event<T>>, at: set<nat>)
    requires IsLog(log) && Holds(t, log, at)
    ensures ValidTable(t) <==>
      forall i, j :: i in at && j in at && log[i].commitment == log[j].commitment ==> i == j
  {
    forall r | r in t ensures r.index in at && r == Row(r.index, Leaf(log[r.index].commitment, log[r.index].ledger)) {
      var i :| 0 <= i < |t| && t[i] == r;
      EntryAt(t, i);
    }
    forall k | k in at ensures Row(k, Leaf(log[k].commitment, log[k].ledger)) in t {
      EntriesKeys(t, k);
      var i :| 0 <= i < |t| && t[i].index == k;
      EntryAt(t, i);
    }
    if ValidTable(t) {
      forall i, j | i in at && j in at && log[i].commitment == log[j].commitment ensures i == j {
        assert Row(i, Leaf(log[i].commitment, log[i].ledger)) in t;
        assert Row(j, Leaf(log[j].commitment, log[j].ledger)) in t;
      }
    }
  }

  lemma ReplayNeverTwice<T>(s: State<T>, events: seq<Event<T>>, ledger: nat, log: seq<Event<T>>, at: set<nat>)
    requires IsLog(log) && DistinctLog(log) && FromLog(events, log) && Holds(s.leaves, log, at)
    ensures ValidTable(s.leaves) && NeverTwice(s, events, ledger)
  {
    HeldOnceIff(s.leaves, log, at);
    forall i | 0 <= i <= |events| ensures Distinct(StoredAll(s, events[..i], ledger).leaves) {
      StoredHolds(s, events[..i], ledger, log, at);
      HeldOnceIff(StoredAll(s, events[..i], ledger).leaves, log, at + Indices(events[..i]));
    }
  }

  lemma {:induction false} StoredHolds<T>(s: State<T>, events: seq<Event<T>>, ledger: nat, log: seq<Event<T>>,
                                          at: set<nat>)
    requires IsLog(log) && FromLog(events, log) && Holds(s.leaves, log, at)
    ensures Holds(StoredAll(s, events, ledger).leaves, log, at + Indices(events))
    decreases |events|
  {
    if events == [] {
      assert at + Indices(events) == at;
    } else {
      var e, rest := events[0], events[1..];
      assert events == [e] + rest;
      var at1 := if e.NewCommitment? then at + {e.index} else at;
      if e.NewCommitment? { PutHolds(s.leaves, e, ledger, log, at); }
      StoredHolds(Stored(s, e, ledger), rest, ledger, log, at1);
      IndicesCons(e, rest);
      assert at1 + Indices(rest) == at + Indices(events);
    }
  }

  /** Replays of a log without repeated commitments are accepted exactly if the live tree has
      room for them on top of what it holds. */
  lemma ReplayAcceptedIff<T>(s: State<T>, pages: seq<seq<Event<T>>>, ledger: nat, depth: nat, log: seq<Event<T>>,
                             at: set<nat>)
    requires IsLog(log) && DistinctLog(log) && FromLog(Flat(pages), log) && Holds(s.leaves, log, at)
    ensures AfterPages(s, pages, ledger, depth).1 <==> Fits(s, Flat(pages), depth)
  {
    ReplayNeverTwice(s, Flat(pages), ledger, log, at);
    PagesAcceptedIff(s, pages, ledger, depth);
  }

  /** The live tree counts replays: onto a replica of the log, the log from an index on is
      accepted again, in whatever pages, exactly if both together fit the tree. The whole log
      is refused exactly if it fills more than half of it. */
  lemma ReplayOverflows<T>(s: State<T>, pages: seq<seq<Event<T>>>, ledger: nat, depth: nat, log: seq<Event<T>>,
                           from: nat)
    requires IsLog(log) && DistinctLog(log) && from < |log| && CommitmentEvents(Flat(pages)) == log[from..]
    requires s.leaves == TableOf(log) && s.tree == Some(Leaves(s.leaves))
    ensures AfterPages(s, pages, ledger, depth).1 <==> 2 * |log| - from <= Pow2(depth)
  {
    CommitmentEventsAre(Flat(pages));
    forall e | e in Flat(pages) && e.NewCommitment? ensures e.index < |log| && e == log[e.index] {
      assert e in CommitmentEvents(Flat(pages));
      assert e in log[from..];
      var i :| 0 <= i < |log[from..]| && log[from..][i] == e;
      assert e == log[from + i];
    }
    TableHolds(log);
    ReplayAcceptedIff(s, pages, ledger, depth, log, Entries(TableOf(log)).Keys);
  }

  lemma TableHolds<T>(log: seq<Event<T>>)
    requires IsLog(log)
    ensures Holds(TableOf(log), log, Entries(TableOf(log)).Keys)
  {
    var t := TableOf(log);
    forall k: nat ensures k in Entries(t) <==> k < |log| {
      EntriesKeys(t, k);
      if k < |log| { assert t[k].index == k; }
    }
    forall k: nat | k < |log|
      ensures k in Entries(t) && Entries(t)[k] == Leaf(log[k].commitment, log[k].ledger)
    {
      EntryAt(t, k);
    }
  }

  /** A log with a commitment at two indices is never replicated: no replay that would bring
      the table to hold both is accepted. */
  lemma RepeatedCommitmentBlocks<T>(s: State<T>, pages: seq<seq<Event<T>>>, ledger: nat, depth: nat,
                                    log: seq<Event<T>>, at: set<nat>, i: nat, j: nat)
    requires IsLog(log) && FromLog(Flat(pages), log) && Holds(s.leaves, log, at) && ValidTable(s.leaves)
    requires i < j < |log| && log[i].commitment == log[j].commitment
    requires i in at + Indices(Flat(pages)) && j in at + Indices(Flat(pages))
    ensures !AfterPages(s, pages, ledger, depth).1
  {
    PagesAreOneBatch(s, pages, ledger, depth);
    PagesAcceptedIff(s, pages, ledger, depth);
    var at' := ReplayHolds(s, Flat(pages), ledger, depth, log, at);
    HeldOnceIff(AfterPages(s, pages, ledger, depth).0.leaves, log, at');
  }

  /** Nothing that is fed shrinks the table or the live tree. */
  lemma {:induction false} FeedingGrows<T>(s: State<T>, events: seq<Event<T>>, ledger: nat, depth: nat)
    ensures var s' := AfterEvents(s, events, ledger, depth).0;
      && |s'.leaves| >= |s.leaves|
      && (s.tree.Some? ==> s'.tree.Some? && |s'.tree.value| >= |s.tree.value|)
    decreases |events|
  {
    if events != [] {
      if events[0].NewCommitment? { PutGrows(s.leaves, RowOf(events[0], ledger)); }
      FeedingGrows(AfterEvent(s, events[0], ledger, depth).0, events[1..], ledger, depth);
    }
  }

  lemma {:induction false} PutGrows<R>(t: seq<Row<R>>, row: Row<R>)
    ensures |Put(t, row)| >= |t|
  {
    if t != [] { PutGrows(t[1..], row); }
  }

  /** Want of room stays: whatever is fed meanwhile, and after a restart too, as many
      commitments as do not fit now do not fit then. */
  lemma RefusalRepeats<T>(s: State<T>, pages: seq<seq<Event<T>>>, ledger: nat, depth: nat, refused: seq<Event<T>>,
                          again: seq<Event<T>>)
    requires s.tree == Some(Leaves(s.leaves)) && !Fits(s, refused, depth)
    requires |Commitments(again)| >= |Commitments(refused)|
    ensures var s' := AfterPages(s, pages, ledger, depth).0;
      !Fits(s', again, depth) && !Fits(Rebuilt(s', depth), again, depth)
  {
    PagesAreOneBatch(s, pages, ledger, depth);
    FeedingGrows(s, Flat(pages), ledger, depth);
  }

  // ----- what is recorded

  /** The last commitment event of c in the batch is at j. */
  ghost predicate LastOf<T>(events: seq<Event<T>>, c: T, j: int) {
    && 0 <= j < |events| && events[j].NewCommitment? && events[j].commitment == c
    && forall i :: j < i < |events| && events[i].NewCommitment? ==> events[i].commitment != c
  }

  /** After a batch the output under a commitment carries the index, ciphertext and ledger of
      the commitment's last event, or is what it was if the batch has none (j < 0). */
  lemma {:induction false} LastOutputIsStored<T>(s: State<T>, events: seq<Event<T>>, ledger: nat, c: T, j: int)
    requires j < 0 || LastOf(events, c, j)
    requires j < 0 ==> forall e :: e in events && e.NewCommitment? ==> e.commitment != c
    ensures var outputs := StoredAll(s, events, ledger).outputs;
      if j < 0 then (c in outputs <==> c in s.outputs) && (c in s.outputs ==> outputs[c] == s.outputs[c])
      else
        var e := events[j];
        c in outputs && outputs[c] == Output(e.index, e.output, if e.ledger == 0 then ledger else e.ledger)
    decreases |events|
  {
    if events != [] {
      var rest := events[1..];
      assert events == [events[0]] + rest;
      assert forall i :: 0 <= i < |rest| ==> rest[i] == events[i + 1];
      if j == 0 { assert forall e :: e in rest && e.NewCommitment? ==> e.commitment != c; }
      LastOutputIsStored(Stored(s, events[0], ledger), rest, ledger, c, j - 1);
    }
  }

  /** The same for the ledgers under nullifiers. */
  lemma {:induction false} LastNullifierIsStored<T>(s: State<T>, events: seq<Event<T>>, ledger: nat, n: T, j: int)
    requires j < |events| && (j >= 0 ==> events[j].NewNullifier? && events[j].nullifier == n)
    requires forall i :: 0 <= i < |events| && i > j && events[i].NewNullifier? ==> events[i].nullifier != n
    ensures var nullifiers := StoredAll(s, events, ledger).nullifiers;
      if j < 0
      then (n in nullifiers <==> n in s.nullifiers) && (n in s.nullifiers ==> nullifiers[n] == s.nullifiers[n])
      else n in nullifiers && nullifiers[n] == if events[j].ledger == 0 then ledger else events[j].ledger
    decreases |events|
  {
    if events != [] {
      var rest := events[1..];
      assert forall i :: 0 <= i < |rest| ==> rest[i] == events[i + 1];
      LastNullifierIsStored(Stored(s, events[0], ledger), rest, ledger, n, if j < 0 then j else j - 1);
    }
  }

  function Spent<T>(events: seq<Event<T>>): set<T> {
    set e | e in events && e.NewNullifier? :: e.nullifier
  }

  function Committed<T>(events: seq<Event<T>>): set<T> {
    set e | e in events && e.NewCommitment? :: e.commitment
  }

  /** A batch records exactly its nullifiers and the outputs of its commitments, beside what
      was recorded before: replaying it records nothing more. */
  lemma {:induction false} BatchRecords<T>(s: State<T>, events: seq<Event<T>>, ledger: nat)
    ensures StoredAll(s, events, ledger).nullifiers.Keys == s.nullifiers.Keys + Spent(events)
    ensures StoredAll(s, events, ledger).outputs.Keys == s.outputs.Keys + Committed(events)
    decreases |events|
  {
    if events != [] {
      var e, rest := events[0], events[1..];
      BatchRecords(Stored(s, e, ledger), rest, ledger);
      assert forall x :: x in events <==> x == e || x in rest;
      assert Spent(events) == Spent(rest) + (if e.NewNullifier? then {e.nullifier} else {});
      assert Committed(events) == Committed(rest) + (if e.NewCommitment? then {e.commitment} else {});
    }
  }

  /** The outputs of all rows of a replica are those of the log's events. */
  ghost predicate OutputsHold<T>(s: State<T>, log: seq<Event<T>>, at: set<nat>)
    requires IsLog(log) && Holds(s.leaves, log, at)
  {
    forall i :: i in at ==>
      log[i].commitment in s.outputs && s.outputs[log[i].commitment] == Output(i, log[i].output, log[i].ledger)
  }

  /** Replays of a log keep that true, the refused ones too: as one commitment is stored at one
      index only, no output is ever replaced by that of another index. */
  lemma {:induction false} ReplayOutputs<T>(s: State<T>, events: seq<Event<T>>, ledger: nat, depth: nat,
      log: seq<Event<T>>, at: set<nat>) returns (at': set<nat>)
    requires IsLog(log) && FromLog(events, log) && Holds(s.leaves, log, at) && OutputsHold(s, log, at)
    ensures var s' := AfterEvents(s, events, ledger, depth).0;
      at <= at' && Holds(s'.leaves, log, at') && OutputsHold(s', log, at')
    ensures AfterEvents(s, events, ledger, depth).1.Some? ==> at' == at + Indices(events)
    decreases |events|
  {
    at' := at;
    if events != [] {
      var e, rest := events[0], events[1..];
      assert events == [e] + rest;
      var (s1, ok) := AfterEvent(s, e, ledger, depth);
      if e.NewCommitment? && !Clashes(s.leaves, e) {
        OneReplay(s, e, ledger, log, at);
        at' := at + {e.index};
      }
      if ok {
        IndicesCons(e, rest);
        at' := ReplayOutputs(s1, rest, ledger, depth, log, at');
      }
    }
  }

  lemma OneReplay<T>(s: State<T>, e: Event<T>, ledger: nat, log: seq<Event<T>>, at: set<nat>)
    requires IsLog(log) && Holds(s.leaves, log, at) && OutputsHold(s, log, at)
    requires e.NewCommitment? && e.index < |log| && e == log[e.index] && !Clashes(s.leaves, e)
    ensures var s' := Stored(s, e, ledger);
      Holds(s'.leaves, log, at + {e.index}) && OutputsHold(s', log, at + {e.index})
  {
    PutHolds(s.leaves, e, ledger, log, at);
    forall i | i in at && i != e.index ensures log[i].commitment != e.commitment {
      EntriesKeys(s.leaves, i);
      var r :| 0 <= r < |s.leaves| && s.leaves[r].index == i;
      EntryAt(s.leaves, r);
      assert s.leaves[r] in s.leaves;
    }
  }
}
