/** From the chain to the client's pool replica: synchronisations whose pages feed the store's
    live tree, which a successful fetch then rebuilds. */
module PoolSync {
  import opened Common
  import opened Bits
  import opened EventFetch
  import opened SyncController
  import opened PoolStore
  import opened MerkleSpec
  import opened IndexedTable
  import Contracts = MerkleContracts

  /** The contract's events, ledger by ledger. */
  type Chain<!T> = nat -> seq<Event<T>>

  /** How many commitments the contract has published in the ledgers up to l. */
  function Count<T>(chain: Chain<T>, l: nat): nat { |CommitmentEvents(EventsIn(chain, 1, l))| }

  /** The log is what the contract has published in the ledgers up to top. */
  ghost predicate IsLogUpTo<T>(chain: Chain<T>, top: nat, log: seq<Event<T>>) {
    IsLog(log) && log == CommitmentEvents(EventsIn(chain, 1, top))
  }

  lemma {:induction false} CommitmentEventsAppend<T>(a: seq<Event<T>>, b: seq<Event<T>>)
    ensures CommitmentEvents(a + b) == CommitmentEvents(a) + CommitmentEvents(b)
  {
    if a == [] {
      assert a + b == b;
    } else {
      var head, x, y := CommitmentEvents([a[0]]), CommitmentEvents(a[1..]), CommitmentEvents(b);
      CommitmentEventsAppend(a[1..], b);
      CommitmentEventsCons(a[0], a[1..] + b);
      CommitmentEventsCons(a[0], a[1..]);
      assert a + b == [a[0]] + (a[1..] + b) && a == [a[0]] + a[1..];
      assert head + (x + y) == (head + x) + y;
    }
  }

  lemma CommitmentEventsCons<T>(e: Event<T>, rest: seq<Event<T>>)
    ensures CommitmentEvents([e] + rest) == CommitmentEvents([e]) + CommitmentEvents(rest)
  {
    assert ([e] + rest)[1..] == rest && [e][1..] == [];
  }

  lemma CountSplit<T>(chain: Chain<T>, l: nat, hi: nat)
    requires l <= hi
    ensures CommitmentEvents(EventsIn(chain, 1, hi))
         == CommitmentEvents(EventsIn(chain, 1, l)) + CommitmentEvents(EventsIn(chain, l + 1, hi))
    ensures Count(chain, l) <= Count(chain, hi)
  {
    EventsSplit(chain, 1, l, hi);
    CommitmentEventsAppend(EventsIn(chain, 1, l), EventsIn(chain, l + 1, hi));
  }

  /** The commitments of a range of ledgers are those of the log between two counts. */
  lemma RangeIsSlice<T>(chain: Chain<T>, top: nat, log: seq<Event<T>>, lo: nat, hi: nat)
    requires IsLogUpTo(chain, top, log) && 0 < lo <= hi + 1 && hi <= top
    ensures Count(chain, lo - 1) <= Count(chain, hi) <= |log|
    ensures CommitmentEvents(EventsIn(chain, lo, hi)) == log[Count(chain, lo - 1)..Count(chain, hi)]
  {
    CountSplit(chain, lo - 1, hi);
    CountSplit(chain, hi, top);
  }

  lemma SliceFromLog<T>(events: seq<Event<T>>, log: seq<Event<T>>, a: nat, b: nat)
    requires IsLog(log) && a <= b <= |log| && CommitmentEvents(events) == log[a..b]
    ensures FromLog(events, log) && forall i :: i in Indices(events) <==> a <= i < b
  {
    CommitmentEventsAre(events);
    forall e | e in events && e.NewCommitment? ensures a <= e.index < b && e == log[e.index] {
      assert e in log[a..b];
      var i :| 0 <= i < |log[a..b]| && log[a..b][i] == e;
      assert e == log[a + i];
    }
    forall i | a <= i < b ensures i in Indices(events) {
      assert log[a..b][i - a] == log[i];
      assert log[i] in CommitmentEvents(events);
    }
  }

  // ----- one fetch

  /** The pages that the callback takes. */
  function Taken<E>(steps: seq<Step<E>>): seq<seq<E>> {
    if steps == [] then []
    else (if steps[0].Chunk? then [steps[0].events] else []) + Taken(steps[1..])
  }

  /** The pages that the callback is handed, the one that it throws on included. */
  function Handed<E>(steps: seq<Step<E>>): seq<seq<E>> {
    if steps == [] then []
    else (if steps[0].Chunk? || steps[0].Thrown? then [steps[0].events] else []) + Handed(steps[1..])
  }

  /** The callback takes only what the store accepts; it may still throw on other grounds. */
  predicate TakesAccepted<T(==)>(s: State<T>, steps: seq<Step<Event<T>>>, depth: nat) {
    AfterPages(s, Taken(steps), 0, depth).1
  }

  /** The callback throws only on what the store refuses. */
  predicate ThrowsOnRefused<T(==)>(s: State<T>, steps: seq<Step<Event<T>>>, depth: nat) {
    NothingThrown(steps) || !AfterPages(s, Handed(steps), 0, depth).1
  }

  /** The store after the pool's fetch. */
  function AfterFeed<T(==)>(s: State<T>, steps: seq<Step<Event<T>>>, depth: nat): State<T> {
    AfterPages(s, Handed(steps), 0, depth).0
  }

  lemma {:induction false} TakenAre<E>(steps: seq<Step<E>>)
    ensures Flat(Taken(steps)) == EventsOf(steps)
    ensures NothingThrown(steps) ==> Handed(steps) == Taken(steps)
    ensures Succeeded(steps) ==> NothingThrown(steps)
  {
    if steps != [] {
      TakenAre(steps[1..]);
      ThrownCons(steps);
      var rest := Taken(steps[1..]);
      if steps[0].Chunk? {
        assert ([steps[0].events] + rest)[1..] == rest;
      } else {
        assert Taken(steps) == rest && EventsOf(steps) == EventsOf(steps[1..]);
      }
    }
  }

  /** A fetch that succeeds has found room for everything it found. */
  lemma FetchedFits<T>(s: State<T>, steps: seq<Step<Event<T>>>, depth: nat)
    requires ValidTable(s.leaves) && Succeeded(steps) && TakesAccepted(s, steps, depth)
    ensures Fits(s, EventsOf(steps), depth) && NeverTwice(s, EventsOf(steps), 0)
    ensures AfterPages(s, Handed(steps), 0, depth).0 ==
      StoredAll(s, EventsOf(steps), 0).(tree := Fed(s.tree, EventsOf(steps)))
  {
    TakenAre(steps);
    PagesAcceptedIff(s, Taken(steps), 0, depth);
  }

  predicate AllPages<E>(steps: seq<Step<E>>) {
    forall i :: 0 <= i < |steps| ==> steps[i].Chunk? || steps[i].Thrown?
  }

  /** With whole pages for every request, the callback is handed a range of ledgers, the whole
      one if it never throws. */
  lemma {:induction false} HandedIsRange<T(!new)>(rpc: Rpc<Event<T>>, callback: Callback<Event<T>>, chain: Chain<T>,
      pageSize: nat, k: nat, cur: nat, latest: nat, steps: seq<Step<Event<T>>>) returns (hi: nat)
    requires FirstPages(rpc, chain, pageSize) && 0 < cur <= latest + 1
    requires IsTrace(rpc, callback, k, cur, latest, steps)
    requires PagesSuffice(chain, steps, pageSize) && AllPages(steps)
    ensures cur <= hi + 1 && hi <= latest && Flat(Handed(steps)) == EventsIn(chain, cur, hi)
    ensures (NothingThrown(steps) <==> Succeeded(steps)) && (Succeeded(steps) ==> hi == latest)
    decreases |steps|
  {
    hi := latest;
    if steps != [] {
      var s, rest := steps[0], steps[1..];
      ThrownCons(steps);
      WholePage(rpc, callback, chain, pageSize, k, latest, steps);
      HandedCons(steps);
      if s.Thrown? {
        hi := s.hi;
        assert s.events + Flat(Handed(rest)) == s.events;
      } else {
        hi := HandedIsRange(rpc, callback, chain, pageSize, k + 1, s.hi + 1, latest, rest);
        EventsSplit(chain, cur, s.hi, hi);
      }
    }
  }

  lemma WholePage<T(!new)>(rpc: Rpc<Event<T>>, callback: Callback<Event<T>>, chain: Chain<T>, pageSize: nat,
                           k: nat, latest: nat, steps: seq<Step<Event<T>>>)
    requires FirstPages(rpc, chain, pageSize) && steps != []
    requires AnswersTo(rpc, callback, k, latest, steps[0]) && steps[0].lo <= latest
    requires PagesSuffice(chain, steps, pageSize) && AllPages(steps)
    ensures var s := steps[0];
      (s.Chunk? || s.Thrown?) && s.lo <= s.hi <= latest && s.events == EventsIn(chain, s.lo, s.hi)
    ensures PagesSuffice(chain, steps[1..], pageSize) && AllPages(steps[1..])
  {
    TurnFacts(rpc, callback, k, latest, steps[0]);
    assert steps == [steps[0]] + steps[1..];
    SufficeCons(chain, steps[0], steps[1..], pageSize);
    assert forall i :: 0 <= i < |steps[1..]| ==> steps[1..][i] == steps[i + 1];
  }

  lemma HandedCons<E>(steps: seq<Step<E>>)
    requires steps != []
    ensures Flat(Handed(steps)) ==
      (if steps[0].Chunk? || steps[0].Thrown? then steps[0].events else []) + Flat(Handed(steps[1..]))
  {
    var rest := Handed(steps[1..]);
    if steps[0].Chunk? || steps[0].Thrown? {
      assert ([steps[0].events] + rest)[1..] == rest;
    } else {
      assert Handed(steps) == rest;
    }
  }

  /** The events of the attempt's retention window. */
  function Window<T, A>(chain: Chain<T>, a: Attempt<Event<T>, A>): seq<Event<T>> {
    EventsIn(chain, StartLedger(a.latest, a.window), a.latest)
  }

  /** Every request of the pool's fetch is answered with a whole page of the chain, and the
      callback's verdict is the store's. */
  ghost predicate HonestFetch<T(!new), A>(s: State<T>, a: Attempt<Event<T>, A>, chain: Chain<T>, pageSize: nat,
                                          depth: nat) {
    && FirstPages(a.poolRpc, chain, pageSize) && PagesSuffice(chain, PoolSteps(a), pageSize)
    && AllPages(PoolSteps(a))
    && TakesAccepted(s, PoolSteps(a), depth) && ThrowsOnRefused(s, PoolSteps(a), depth)
  }

  /** The window fits the live tree on top of what it holds, without a commitment twice. */
  ghost predicate WindowFits<T, A>(s: State<T>, a: Attempt<Event<T>, A>, chain: Chain<T>, depth: nat) {
    Fits(s, Window(chain, a), depth) && NeverTwice(s, Window(chain, a), 0)
  }

  lemma HonestFetchIff<T(!new), A>(a: Attempt<Event<T>, A>, s: State<T>, chain: Chain<T>, pageSize: nat, depth: nat)
    requires ValidTable(s.leaves) && HonestFetch(s, a, chain, pageSize, depth)
    ensures Succeeded(PoolSteps(a)) <==> WindowFits(s, a, chain, depth)
  {
    var start, steps := StartLedger(a.latest, a.window), PoolSteps(a);
    StepsAreTrace(a.poolRpc, a.poolCallback, 0, start, a.latest);
    var hi := HandedIsRange(a.poolRpc, a.poolCallback, chain, pageSize, 0, start, a.latest, PoolSteps(a));
    TakenAre(steps);
    EventsSplit(chain, start, hi, a.latest);
    PagesAreOneBatch(s, Handed(steps), 0, depth);
    BatchSplits(s, EventsIn(chain, start, hi), EventsIn(chain, hi + 1, a.latest), 0, depth);
    BatchAcceptedIff(s, Window(chain, a), 0, depth);
  }

  /** A synchronisation with such a fetch: if the window fits, and nothing throws before the
      metadata are saved, the pool is recorded as synced to the latest ledger; if not, its
      metadata stay as they are. */
  lemma SyncRecordsIff<T(!new), A>(m: Metadata, a: Attempt<Event<T>, A>, ids: Ids<Event<T>, A>, s: State<T>,
                                   chain: Chain<T>, pageSize: nat, depth: nat)
    requires ValidTable(s.leaves) && HonestFetch(s, a, chain, pageSize, depth)
    requires PassesGapCheck(m, a)
    ensures AfterSync(m, a, ids).pool ==
      if WindowFits(s, a, chain, depth) && GetsSaved(a)
      then Part(a.latest, CursorOf(PoolSteps(a), ids.pool, if a.forceRefresh then None else m.pool.lastCursor), false)
      else m.pool
  {
    HonestFetchIff(a, s, chain, pageSize, depth);
  }

  /** A refetch on top of a rebuilt tree: it succeeds exactly if the stored commitments and
      those of the window together fit the tree, although the window's are stored already. */
  lemma RefetchSucceedsIff<T(!new), A>(a: Attempt<Event<T>, A>, s: State<T>, chain: Chain<T>, top: nat,
      log: seq<Event<T>>, at: set<nat>, pageSize: nat, depth: nat)
    requires IsLogUpTo(chain, top, log) && DistinctLog(log) && a.latest <= top
    requires Holds(s.leaves, log, at) && s.tree == Some(Leaves(s.leaves))
    requires HonestFetch(s, a, chain, pageSize, depth)
    ensures var count := Count(chain, a.latest) - Count(chain, StartLedger(a.latest, a.window) - 1);
      Succeeded(PoolSteps(a)) <==> count == 0 || |s.leaves| + count <= Pow2(depth)
  {
    var start := StartLedger(a.latest, a.window);
    RangeIsSlice(chain, top, log, start, a.latest);
    SliceFromLog(Window(chain, a), log, Count(chain, start - 1), Count(chain, a.latest));
    CommitmentEventsAre(Window(chain, a));
    ReplayNeverTwice(s, Window(chain, a), 0, log, at);
    HonestFetchIff(a, s, chain, pageSize, depth);
  }

  /** A sync that fails for want of room fails again, in the same session or after a restart,
      as long as the window holds no fewer commitments. */
  lemma RefusedAgain<T(!new), A>(a: Attempt<Event<T>, A>, b: Attempt<Event<T>, A>, s: State<T>, s': State<T>,
                                 chain: Chain<T>, pageSize: nat, depth: nat)
    requires ValidTable(s.leaves) && s.tree == Some(Leaves(s.leaves))
    requires HonestFetch(s, a, chain, pageSize, depth) && !Fits(s, Window(chain, a), depth)
    requires s' == AfterFeed(s, PoolSteps(a), depth) || s' == Rebuilt(AfterFeed(s, PoolSteps(a), depth), depth)
    requires HonestFetch(s', b, chain, pageSize, depth)
    requires |Commitments(Window(chain, b))| >= |Commitments(Window(chain, a))|
    ensures !Succeeded(PoolSteps(a)) && !Succeeded(PoolSteps(b))
  {
    HonestFetchIff(a, s, chain, pageSize, depth);
    RefusalRepeats(s, Handed(PoolSteps(a)), 0, depth, Window(chain, a), Window(chain, b));
    PagesAcceptedIff(s, Handed(PoolSteps(a)), 0, depth);
    HonestFetchIff(b, s', chain, pageSize, depth);
  }

  /** The attempt's window holds the whole log. */
  ghost predicate SeesAll<T, A>(a: Attempt<Event<T>, A>, chain: Chain<T>, top: nat, log: seq<Event<T>>) {
    a.latest <= top && Count(chain, a.latest) == |log| && Count(chain, StartLedger(a.latest, a.window) - 1) == 0
  }

  /** From nothing on: a log that fits the tree but fills more than half of it is synced by the
      first synchronisation and refused by the second, which finds nothing new. */
  lemma SecondSyncFails<T(!new), A>(a: Attempt<Event<T>, A>, b: Attempt<Event<T>, A>, ids: Ids<Event<T>, A>,
      s: State<T>, chain: Chain<T>, top: nat, log: seq<Event<T>>, pageSize: nat, depth: nat)
    requires IsLogUpTo(chain, top, log) && DistinctLog(log) && |log| <= Pow2(depth) < 2 * |log|
    requires s.leaves == [] && s.tree == Some([])
    requires SeesAll(a, chain, top, log) && HonestFetch(s, a, chain, pageSize, depth) && GetsSaved(a)
    requires var s1 := Rebuilt(AfterFeed(s, PoolSteps(a), depth), depth);
      SeesAll(b, chain, top, log) && HonestFetch(s1, b, chain, pageSize, depth)
    requires PassesGapCheck(AfterSync(FRESH, a, ids), b)
    ensures var m1 := AfterSync(FRESH, a, ids);
      && m1.pool.lastLedger == a.latest
      && AfterFeed(s, PoolSteps(a), depth).leaves == TableOf(log)
      && AfterSync(m1, b, ids).pool == m1.pool
  {
    FirstFetchStoresLog(a, s, chain, top, log, pageSize, depth);
    SecondFetchFails(b, Rebuilt(AfterFeed(s, PoolSteps(a), depth), depth), chain, top, log, pageSize, depth);
    assert AfterSync(FRESH, a, ids).pool.lastLedger == a.latest;
  }

  lemma FirstFetchStoresLog<T(!new), A>(a: Attempt<Event<T>, A>, s: State<T>, chain: Chain<T>, top: nat,
                                        log: seq<Event<T>>, pageSize: nat, depth: nat)
    requires IsLogUpTo(chain, top, log) && DistinctLog(log) && |log| <= Pow2(depth)
    requires s.leaves == [] && s.tree == Some([])
    requires SeesAll(a, chain, top, log) && HonestFetch(s, a, chain, pageSize, depth)
    ensures Succeeded(PoolSteps(a))
    ensures AfterFeed(s, PoolSteps(a), depth).leaves == TableOf(log)
  {
    assert Holds(s.leaves, log, {});
    assert Leaves(s.leaves) == [];
    RefetchSucceedsIff(a, s, chain, top, log, {}, pageSize, depth);
    HandedIsWindow(a, s, chain, pageSize, depth);
    WindowIsLog(a, chain, top, log);
    ReplaysRebuild(s, Handed(PoolSteps(a)), 0, depth, log, {});
  }

  lemma HandedIsWindow<T(!new), A>(a: Attempt<Event<T>, A>, s: State<T>, chain: Chain<T>, pageSize: nat, depth: nat)
    requires HonestFetch(s, a, chain, pageSize, depth) && Succeeded(PoolSteps(a))
    ensures Flat(Handed(PoolSteps(a))) == Window(chain, a) && AfterPages(s, Handed(PoolSteps(a)), 0, depth).1
  {
    var start := StartLedger(a.latest, a.window);
    StepsAreTrace(a.poolRpc, a.poolCallback, 0, start, a.latest);
    var hi := HandedIsRange(a.poolRpc, a.poolCallback, chain, pageSize, 0, start, a.latest, PoolSteps(a));
    TakenAre(PoolSteps(a));
  }

  lemma WindowIsLog<T, A>(a: Attempt<Event<T>, A>, chain: Chain<T>, top: nat, log: seq<Event<T>>)
    requires IsLogUpTo(chain, top, log) && SeesAll(a, chain, top, log)
    ensures FromLog(Window(chain, a), log) && HasAll(Indices(Window(chain, a)), |log|)
  {
    RangeIsSlice(chain, top, log, StartLedger(a.latest, a.window), a.latest);
    SliceFromLog(Window(chain, a), log, 0, |log|);
  }

  lemma SecondFetchFails<T(!new), A>(b: Attempt<Event<T>, A>, s: State<T>, chain: Chain<T>, top: nat,
                                     log: seq<Event<T>>, pageSize: nat, depth: nat)
    requires IsLogUpTo(chain, top, log) && DistinctLog(log) && |log| <= Pow2(depth) < 2 * |log|
    requires s.leaves == TableOf(log) && s.tree == Some(Leaves(s.leaves)[..Min(|s.leaves|, Pow2(depth))])
    requires SeesAll(b, chain, top, log) && HonestFetch(s, b, chain, pageSize, depth)
    ensures !Succeeded(PoolSteps(b))
  {
    TableHolds(log);
    assert Leaves(s.leaves)[..|s.leaves|] == Leaves(s.leaves);
    RefetchSucceedsIff(b, s, chain, top, log, Entries(TableOf(log)).Keys, pageSize, depth);
  }

  /** Replays stay in the live tree until it is rebuilt, which a failed fetch does not do: if
      all it found was stored before, the table is the same, and the tree has the replayed
      commitments a second time. */
  lemma ReplaysStayInTree<T>(s: State<T>, steps: seq<Step<Event<T>>>, depth: nat, log: seq<Event<T>>, at: set<nat>)
    requires IsLog(log) && Holds(s.leaves, log, at) && ValidTable(s.leaves) && s.tree == Some(Leaves(s.leaves))
    requires FromLog(EventsOf(steps), log) && Indices(EventsOf(steps)) <= at && Commitments(EventsOf(steps)) != []
    requires NothingThrown(steps) && TakesAccepted(s, steps, depth)
    ensures var s' := AfterFeed(s, steps, depth);
      && s'.leaves == s.leaves
      && s'.tree == Some(Leaves(s.leaves) + Commitments(EventsOf(steps)))
      && s' != Rebuilt(s', depth)
  {
    TakenAre(steps);
    PagesAcceptedIff(s, Taken(steps), 0, depth);
    StoredHolds(s, EventsOf(steps), 0, log, at);
    assert at + Indices(EventsOf(steps)) == at;
    EntriesDetermine(s.leaves, StoredAll(s, EventsOf(steps), 0).leaves);
    var s' := AfterFeed(s, steps, depth);
    assert |Rebuilt(s', depth).tree.value| <= |s.leaves| < |s'.tree.value|;
  }

  // ----- whole runs

  /** The store from one synchronisation to the next: the fetch feeds the tables and the tree;
      a success rebuilds the tree, unless that throws and leaves a part of it; and the client
      may be restarted, which rebuilds it too. */
  ghost predicate SyncStep<T, A>(m: Metadata, s: State<T>, a: Attempt<Event<T>, A>, s': State<T>, depth: nat) {
    if !PoolFetchRuns(m, a) then s' == s || s' == Rebuilt(s, depth)
    else
      var fed := AfterFeed(s, PoolSteps(a), depth);
      && TakesAccepted(s, PoolSteps(a), depth)
      && s' == fed.(tree := s'.tree)
      && (s' == Rebuilt(fed, depth)
          || (!Succeeded(PoolSteps(a)) && s' == fed)
          || (Succeeded(PoolSteps(a)) && a.faults.rebuild && PartlyRebuilt(s')))
      && (Succeeded(PoolSteps(a)) && |fed.leaves| > Pow2(depth) ==> a.faults.rebuild)
  }

  ghost predicate PartlyRebuilt<T>(s: State<T>) {
    s.tree.Some? && s.tree.value <= Leaves(s.leaves)
  }

  /** States of the store before, between and after the synchronisations. */
  ghost predicate IsRun<T, A>(m: Metadata, states: seq<State<T>>, attempts: seq<Attempt<Event<T>, A>>,
                              ids: Ids<Event<T>, A>, depth: nat)
    decreases |attempts|
  {
    && |states| == |attempts| + 1
    && (attempts != [] ==>
          && SyncStep(m, states[0], attempts[0], states[1], depth)
          && IsRun(AfterSync(m, attempts[0], ids), states[1..], attempts[1..], ids, depth))
  }

  /** The ledgers after the known ones that the turns give up hold no commitment. */
  ghost predicate NoCommitmentLost<T>(chain: Chain<T>, steps: seq<Step<Event<T>>>, known: nat, latest: nat) {
    forall l: nat :: known < l <= latest && Skips(steps, l) ==> CommitmentEvents(chain(l)) == []
  }

  /** The pool's fetch is answered from the chain; if it is recorded, then in whole pages, and
      the ledgers after the last recorded one that it does not reach hold no commitment. */
  ghost predicate Answered<T(!new), A>(m: Metadata, a: Attempt<Event<T>, A>, chain: Chain<T>, top: nat,
                                       pageSize: nat) {
    && a.latest <= top && FirstPages(a.poolRpc, chain, pageSize)
    && (PoolRecorded(m, a) ==>
          && PagesSuffice(chain, PoolSteps(a), pageSize)
          && NoCommitmentLost(chain, PoolSteps(a), m.pool.lastLedger, a.latest)
          && Count(chain, StartLedger(a.latest, a.window) - 1) <= Count(chain, m.pool.lastLedger))
  }

  ghost predicate AllAnswered<T(!new), A>(m: Metadata, attempts: seq<Attempt<Event<T>, A>>, ids: Ids<Event<T>, A>,
                                          chain: Chain<T>, top: nat, pageSize: nat)
    decreases |attempts|
  {
    attempts != [] ==>
      && Answered(m, attempts[0], chain, top, pageSize)
      && AllAnswered(AfterSync(m, attempts[0], ids), attempts[1..], ids, chain, top, pageSize)
  }

  /** Pages of the chain hold nothing but log events. */
  lemma {:induction false} HandedFromLog<T(!new)>(rpc: Rpc<Event<T>>, callback: Callback<Event<T>>, chain: Chain<T>,
      top: nat, log: seq<Event<T>>, pageSize: nat, k: nat, cur: nat, latest: nat, steps: seq<Step<Event<T>>>)
    requires IsLogUpTo(chain, top, log) && latest <= top && 0 < cur && FirstPages(rpc, chain, pageSize)
    requires IsTrace(rpc, callback, k, cur, latest, steps)
    ensures FromLog(Flat(Handed(steps)), log)
    decreases |steps|
  {
    if steps != [] {
      var s, rest := steps[0], steps[1..];
      TurnFacts(rpc, callback, k, latest, s);
      HandedCons(steps);
      if s.Chunk? || s.Thrown? { PageFromLog(chain, top, log, pageSize, s.lo, s.hi); }
      if s.Fails() {
        assert Handed(rest) == [];
      } else {
        HandedFromLog(rpc, callback, chain, top, log, pageSize, k + 1, s.hi + 1, latest, rest);
      }
    }
  }

  lemma PageFromLog<T>(chain: Chain<T>, top: nat, log: seq<Event<T>>, pageSize: nat, lo: nat, hi: nat)
    requires IsLogUpTo(chain, top, log) && 0 < lo <= hi <= top
    ensures FromLog(FirstPage(EventsIn(chain, lo, hi), pageSize), log)
  {
    RangeIsSlice(chain, top, log, lo, hi);
    SliceFromLog(EventsIn(chain, lo, hi), log, Count(chain, lo - 1), Count(chain, hi));
  }

  /** The ledger in which a commitment was published. */
  lemma {:induction false} LedgerOfIndex<T>(chain: Chain<T>, lo: nat, hi: nat, i: nat) returns (l: nat)
    requires lo <= hi && Count(chain, lo) <= i < Count(chain, hi)
    ensures lo < l <= hi && Count(chain, l - 1) <= i < Count(chain, l)
    decreases hi - lo
  {
    if Count(chain, hi - 1) <= i {
      l := hi;
    } else {
      l := LedgerOfIndex(chain, lo, hi - 1, i);
    }
  }

  lemma {:induction false} CoveredHas<E>(chain: nat -> seq<E>, steps: seq<Step<E>>, lo: nat, hi: nat, l: nat)
    requires lo <= l <= hi && Covers(steps, l)
    ensures forall e :: e in chain(l) ==> e in CoveredEvents(chain, steps, lo, hi)
    decreases l - lo
  {
    if lo < l { CoveredHas(chain, steps, lo + 1, hi, l); }
  }

  /** A recorded fetch finds every commitment from the recorded ledger to the latest. */
  lemma RecordedFinds<T(!new), A>(m: Metadata, a: Attempt<Event<T>, A>, chain: Chain<T>, top: nat,
                                  log: seq<Event<T>>, pageSize: nat, i: nat)
    requires IsLogUpTo(chain, top, log) && Answered(m, a, chain, top, pageSize) && PoolRecorded(m, a)
    requires Count(chain, m.pool.lastLedger) <= i < Count(chain, a.latest)
    ensures i in Indices(EventsOf(PoolSteps(a)))
  {
    var start, known, steps := StartLedger(a.latest, a.window), m.pool.lastLedger, PoolSteps(a);
    FetchesAre(a);
    FetchCompleteIff(a.poolRpc, a.poolCallback, chain, pageSize, 0, start, a.latest);
    assert EventsOf(steps) == CoveredEvents(chain, steps, start, a.latest);
    var from := Max(start - 1, known);
    if known > a.latest { CountSplit(chain, a.latest, known); }
    var l := LedgerOfIndex(chain, from, a.latest, i);
    PublishedIn(chain, top, log, l, i);
    CommitmentEventsAre(chain(l));
    assert Covers(steps, l);
    CoveredHas(chain, steps, start, a.latest, l);
    assert log[i] in EventsOf(steps);
  }

  lemma PublishedIn<T>(chain: Chain<T>, top: nat, log: seq<Event<T>>, l: nat, i: nat)
    requires IsLogUpTo(chain, top, log) && 0 < l <= top && Count(chain, l - 1) <= i < Count(chain, l)
    ensures i < |log| && log[i] in CommitmentEvents(chain(l))
  {
    RangeIsSlice(chain, top, log, l, l);
    assert EventsIn(chain, l, l) == chain(l) + [] == chain(l);
    assert log[Count(chain, l - 1)..Count(chain, l)][i - Count(chain, l - 1)] == log[i];
  }

  /** The tables after one synchronisation: log rows and their outputs only, all of those up
      to the recorded ledger. */
  lemma StepReplicates<T(!new), A>(m: Metadata, s: State<T>, a: Attempt<Event<T>, A>, s': State<T>,
      ids: Ids<Event<T>, A>, chain: Chain<T>, top: nat, log: seq<Event<T>>, pageSize: nat, depth: nat, at: set<nat>)
    returns (at': set<nat>)
    requires IsLogUpTo(chain, top, log) && Holds(s.leaves, log, at) && OutputsHold(s, log, at)
    requires HasAll(at, Count(chain, m.pool.lastLedger))
    requires Answered(m, a, chain, top, pageSize) && SyncStep(m, s, a, s', depth)
    ensures at <= at' && Holds(s'.leaves, log, at') && OutputsHold(s', log, at')
    ensures HasAll(at', Count(chain, AfterSync(m, a, ids).pool.lastLedger))
  {
    at' := at;
    if PoolFetchRuns(m, a) {
      var steps, pages := PoolSteps(a), Handed(PoolSteps(a));
      var start := StartLedger(a.latest, a.window);
      StepsAreTrace(a.poolRpc, a.poolCallback, 0, start, a.latest);
      HandedFromLog(a.poolRpc, a.poolCallback, chain, top, log, pageSize, 0, start, a.latest, steps);
      PagesAreOneBatch(s, pages, 0, depth);
      at' := ReplayOutputs(s, Flat(pages), 0, depth, log, at);
      if PoolRecorded(m, a) {
        TakenAre(steps);
        forall i | 0 <= i < Count(chain, a.latest) ensures i in at' {
          if i >= Count(chain, m.pool.lastLedger) { RecordedFinds(m, a, chain, top, log, pageSize, i); }
        }
      }
    }
  }

  /** Over every run of synchronisations and restarts, whatever fails in them, the tables hold
      rows of the contract's log only, each with its own output, and all of those published up
      to the recorded ledger. */
  lemma {:induction false} RunReplicates<T(!new), A>(m: Metadata, states: seq<State<T>>,
      attempts: seq<Attempt<Event<T>, A>>, ids: Ids<Event<T>, A>, chain: Chain<T>, top: nat, log: seq<Event<T>>,
      pageSize: nat, depth: nat, at: set<nat>) returns (at': set<nat>)
    requires IsLogUpTo(chain, top, log) && IsRun(m, states, attempts, ids, depth)
    requires Holds(states[0].leaves, log, at) && OutputsHold(states[0], log, at)
    requires HasAll(at, Count(chain, m.pool.lastLedger))
    requires AllAnswered(m, attempts, ids, chain, top, pageSize)
    ensures at <= at' && Holds(states[|attempts|].leaves, log, at') && OutputsHold(states[|attempts|], log, at')
    ensures HasAll(at', Count(chain, MetadataAfter(m, attempts, ids).pool.lastLedger))
    decreases |attempts|
  {
    at' := at;
    if attempts != [] {
      at' := StepReplicates(m, states[0], attempts[0], states[1], ids, chain, top, log, pageSize, depth, at);
      at' := RunReplicates(AfterSync(m, attempts[0], ids), states[1..], attempts[1..], ids, chain, top, log,
        pageSize, depth, at');
    }
  }

  /** No commitment is published before the ledgers that the fetch covers without a later
      clamp. */
  ghost predicate StartsBeforeCommitments<T, A>(a: Attempt<Event<T>, A>, chain: Chain<T>) {
    forall l: nat :: 0 < l < FirstOf(PoolSteps(a), a.latest, a.window) && l <= a.latest ==>
      CommitmentEvents(chain(l)) == []
  }

  lemma {:induction false} CountStays<T>(chain: Chain<T>, hi: nat)
    requires forall l: nat :: 0 < l <= hi ==> CommitmentEvents(chain(l)) == []
    ensures Count(chain, hi) == 0
    decreases hi
  {
    if hi > 0 {
      CountStays(chain, hi - 1);
      CountSplit(chain, hi - 1, hi);
      assert EventsIn(chain, hi, hi) == chain(hi) + [] == chain(hi);
    }
  }

  /** Every attempt's pool fetch is answered from the chain in whole pages. */
  ghost predicate AllInPages<T(!new), A>(attempts: seq<Attempt<Event<T>, A>>, chain: Chain<T>, top: nat,
                                         pageSize: nat) {
    forall i :: 0 <= i < |attempts| ==>
      && attempts[i].latest <= top
      && FirstPages(attempts[i].poolRpc, chain, pageSize)
      && PagesSuffice(chain, PoolSteps(attempts[i]), pageSize)
  }

  lemma FirstAnswered<T(!new), A>(m: Metadata, a: Attempt<Event<T>, A>, chain: Chain<T>, top: nat, pageSize: nat)
    requires a.latest <= top && FirstPages(a.poolRpc, chain, pageSize) && PagesSuffice(chain, PoolSteps(a), pageSize)
    requires m.pool.lastLedger == 0 && Succeeded(PoolSteps(a)) && StartsBeforeCommitments(a, chain)
    ensures Answered(m, a, chain, top, pageSize)
  {
    FetchesAre(a);
    CountStays(chain, StartLedger(a.latest, a.window) - 1);
  }

  lemma {:induction false} GoodRunAnswered<T(!new), A>(m: Metadata, attempts: seq<Attempt<Event<T>, A>>,
      ids: Ids<Event<T>, A>, chain: Chain<T>, top: nat, pageSize: nat)
    requires GoodRun(m, attempts, ids) && m.pool.lastLedger == m.asp.lastLedger
    requires AllInPages(attempts, chain, top, pageSize)
    requires attempts != [] && m.pool.lastLedger == 0 ==> StartsBeforeCommitments(attempts[0], chain)
    ensures AllAnswered(m, attempts, ids, chain, top, pageSize)
    decreases |attempts|
  {
    if attempts != [] {
      var a := attempts[0];
      if m.pool.lastLedger > 0 {
        CountSplit(chain, StartLedger(a.latest, a.window) - 1, m.pool.lastLedger);
      } else {
        FirstAnswered(m, a, chain, top, pageSize);
      }
      assert Answered(m, a, chain, top, pageSize);
      GoodRunAnswered(AfterSync(m, a, ids), attempts[1..], ids, chain, top, pageSize);
    }
  }

  /** A good run ends with the live tree rebuilt from the table. */
  lemma {:induction false} GoodRunRebuilds<T, A>(m: Metadata, states: seq<State<T>>,
      attempts: seq<Attempt<Event<T>, A>>, ids: Ids<Event<T>, A>, depth: nat)
    requires IsRun(m, states, attempts, ids, depth) && GoodRun(m, attempts, ids) && attempts != []
    ensures states[|attempts|] == Rebuilt(states[|attempts|], depth)
    decreases |attempts|
  {
    if |attempts| > 1 {
      GoodRunRebuilds(AfterSync(m, attempts[0], ids), states[1..], attempts[1..], ids, depth);
    }
  }

  /** End to end: a good run from an empty store whose first fetch starts before the first
      commitment, with pages that suffice, up to a ledger from which on the contract has
      inserted less than 90 times, gives a root that the contract accepts, and its last root
      if it has inserted nothing since. */
  lemma GoodRunGivesKnownRoot<T(!new), A>(pool: Contracts.MerkleTreeWithHistory<T>, k: nat, chain: Chain<T>,
      log: seq<Event<T>>, pageSize: nat, attempts: seq<Attempt<Event<T>, A>>, ids: Ids<Event<T>, A>,
      states: seq<State<T>>)
    requires pool.Valid() && pool.Initialized() && attempts != []
    requires IsLogOf(log, pool, k) && Contracts.RecentAt(|pool.leaves| / 2, k)
    requires var top := attempts[|attempts| - 1].latest;
      IsLogUpTo(chain, top, log) && AllInPages(attempts, chain, top, pageSize)
    requires GoodRun(FRESH, attempts, ids) && StartsBeforeCommitments(attempts[0], chain)
    requires IsRun(FRESH, states, attempts, ids, pool.levels.value) && states[0].leaves == []
    ensures var tree := states[|attempts|].tree;
      && tree == Some(pool.leaves[..2 * k])
      && var root := TreeRoot(pool.compress, pool.zero, tree.value, pool.levels.value);
      && Contracts.Recent(pool.compress, pool.zero, pool.leaves, pool.levels.value, root)
      && pool.currentRootIndex.value in pool.roots
      && (2 * k == |pool.leaves| ==> root == pool.roots[pool.currentRootIndex.value])
    ensures forall i :: 0 <= i < 2 * k ==>
      && log[i].commitment in states[|attempts|].outputs
      && states[|attempts|].outputs[log[i].commitment] == Output(i, log[i].output, log[i].ledger)
  {
    var top, depth := attempts[|attempts| - 1].latest, pool.levels.value;
    GoodRunAnswered(FRESH, attempts, ids, chain, top, pageSize);
    assert Holds(states[0].leaves, log, {});
    var at := RunReplicates(FRESH, states, attempts, ids, chain, top, log, pageSize, depth, {});
    LastRecorded(FRESH, attempts, ids);
    GoodRunRebuilds(FRESH, states, attempts, ids, depth);
    RebuiltRootIsKnown(pool, k, log, states[|attempts|], at);
  }
}
