/** From the chain to the client's ASP replica: synchronisations whose pages feed the store. */
module ReplicaSync {
  import opened Common
  import opened EventFetch
  import opened SyncController
  import opened AspStore
  import opened MerkleSpec
  import opened MerkleContracts

  /** The contract's events, ledger by ledger. */
  type Chain<!T> = nat -> seq<Event<T>>

  /** How many leaves the contract has published in the ledgers up to l. */
  function Count<T>(chain: Chain<T>, l: nat): nat { |LeafEvents(EventsIn(chain, 1, l))| }

  /** The log is what the contract has published in the ledgers up to top. */
  ghost predicate IsLogUpTo<T>(chain: Chain<T>, top: nat, log: seq<Event<T>>, depth: nat) {
    Published(log, depth) && log == LeafEvents(EventsIn(chain, 1, top))
  }

  lemma {:induction false} LeafEventsAppend<T>(a: seq<Event<T>>, b: seq<Event<T>>)
    ensures LeafEvents(a + b) == LeafEvents(a) + LeafEvents(b)
  {
    if a == [] {
      assert a + b == b;
    } else {
      LeafEventsAppend(a[1..], b);
      assert a + b == [a[0]] + (a[1..] + b);
      LeafEventsCons(a[0], a[1..] + b);
      LeafEventsCons(a[0], a[1..]);
      assert a == [a[0]] + a[1..];
    }
  }

  lemma LeafEventsCons<T>(e: Event<T>, rest: seq<Event<T>>)
    ensures LeafEvents([e] + rest) == (if e.LeafEvent? then [e] else []) + LeafEvents(rest)
  {
    assert ([e] + rest)[1..] == rest;
  }

  lemma CountSplit<T>(chain: Chain<T>, l: nat, next: nat, hi: nat)
    requires l < next <= l + 1 && l <= hi
    ensures LeafEvents(EventsIn(chain, 1, hi))
         == LeafEvents(EventsIn(chain, 1, l)) + LeafEvents(EventsIn(chain, next, hi))
    ensures Count(chain, l) <= Count(chain, hi)
  {
    EventsSplit(chain, 1, l, hi);
    LeafEventsAppend(EventsIn(chain, 1, l), EventsIn(chain, next, hi));
  }

  lemma CountGrows<T>(chain: Chain<T>, l: nat, hi: nat)
    requires l <= hi
    ensures Count(chain, l) <= Count(chain, hi)
  {
    CountSplit(chain, l, l + 1, hi);
  }

  /** A range of ledgers holds a slice of the log. */
  lemma RangeIsSlice<T>(chain: Chain<T>, top: nat, log: seq<Event<T>>, depth: nat, before: nat, lo: nat, hi: nat)
    requires IsLogUpTo(chain, top, log, depth) && before + 1 == lo <= hi <= top
    ensures IsSlice(EventsIn(chain, lo, hi), log, Count(chain, before), Count(chain, hi))
  {
    CountSplit(chain, before, lo, hi);
    CountSplit(chain, hi, hi + 1, top);
    MiddleSlice(LeafEvents(EventsIn(chain, 1, before)), LeafEvents(EventsIn(chain, lo, hi)),
      LeafEvents(EventsIn(chain, hi + 1, top)));
  }

  lemma MiddleSlice<E>(a: seq<E>, b: seq<E>, c: seq<E>)
    ensures (a + b + c)[|a|..|a + b|] == b
  {
  }

  // ----- one fetch

  /** One turn's page fed to the store: the state after it, and whether the store takes or
      refuses the page as the turn says. */
  function AfterTurn<T>(s: State<T>, step: Step<Event<T>>, depth: nat): (State<T>, bool) {
    if step.Chunk? && step.events != [] then
      var (s', res) := AfterBatch(s, step.events, 0, depth);
      (s', res.Success?)
    else if step.Thrown? then
      var (s', res) := AfterBatch(s, step.events, 0, depth);
      (s', res.Failure?)
    else (s, true)
  }

  /** The pages of a fetch fed to the store. */
  function Feed<T>(s: State<T>, steps: seq<Step<Event<T>>>, depth: nat): (State<T>, bool)
    decreases |steps|
  {
    if steps == [] then (s, true)
    else
      var (s1, ok1) := AfterTurn(s, steps[0], depth);
      var (s2, ok2) := Feed(s1, steps[1..], depth);
      (s2, ok1 && ok2)
  }

  /** Turns from ledger cur on, with complete pages, that give up no leaf beyond what is known
      or fetched before. */
  ghost predicate WholePages<T>(chain: Chain<T>, steps: seq<Step<Event<T>>>, cur: nat, latest: nat, known: nat)
    decreases |steps|
  {
    if steps == [] then cur > latest
    else
      var s := steps[0];
      && cur == s.lo <= s.hi && cur <= latest
      && (s.Chunk? || s.Thrown? ==> s.hi <= latest && s.events == EventsIn(chain, s.lo, s.hi))
      && (s.Skip? ==> Count(chain, Min(s.hi, latest)) <= Count(chain, Max(s.lo - 1, known)))
      && (if s.Fails() then steps[1..] == [] else WholePages(chain, steps[1..], s.hi + 1, latest, known))
  }

  /** The ledgers after the known ones that the turns give up hold no leaf event. */
  ghost predicate NoLeafLost<T>(chain: Chain<T>, steps: seq<Step<Event<T>>>, known: nat, latest: nat) {
    forall l: nat :: known < l <= latest && Skips(steps, l) ==> LeafEvents(chain(l)) == []
  }

  /** Ledgers without leaf events do not count. */
  lemma {:induction false} CountStays<T>(chain: Chain<T>, l: nat, hi: nat)
    requires l <= hi && forall k: nat :: l < k <= hi ==> LeafEvents(chain(k)) == []
    ensures Count(chain, hi) == Count(chain, l)
    decreases hi - l
  {
    if l < hi {
      CountStays(chain, l, hi - 1);
      CountSplit(chain, hi - 1, hi, hi);
      assert EventsIn(chain, hi, hi) == chain(hi) + [] == chain(hi);
    }
  }

  lemma {:induction false} FetchHasWholePages<T(!new)>(rpc: Rpc<Event<T>>, callback: Callback<Event<T>>,
      chain: Chain<T>, pageSize: nat, k: nat, cur: nat, latest: nat, known: nat, steps: seq<Step<Event<T>>>)
    requires FirstPages(rpc, chain, pageSize) && cur > 0 && IsTrace(rpc, callback, k, cur, latest, steps)
    requires PagesSuffice(chain, steps, pageSize) && NoLeafLost(chain, steps, known, latest)
    ensures WholePages(chain, steps, cur, latest, known)
    decreases |steps|
  {
    if steps != [] {
      var s := steps[0];
      TurnFacts(rpc, callback, k, latest, s);
      if s.Skip? { SkipIsKnown(chain, steps, known, latest); }
      TailHas(chain, steps, pageSize, known, latest);
      if !s.Fails() {
        FetchHasWholePages(rpc, callback, chain, pageSize, k + 1, s.hi + 1, latest, known, steps[1..]);
      }
    }
  }

  lemma TailHas<T>(chain: Chain<T>, steps: seq<Step<Event<T>>>, pageSize: nat, known: nat, latest: nat)
    requires steps != [] && PagesSuffice(chain, steps, pageSize) && NoLeafLost(chain, steps, known, latest)
    ensures PagesSuffice(chain, steps[1..], pageSize) && NoLeafLost(chain, steps[1..], known, latest)
  {
    assert steps == [steps[0]] + steps[1..];
    SufficeCons(chain, steps[0], steps[1..], pageSize);
    forall l: nat ensures Skips(steps[1..], l) ==> Skips(steps, l) { ConsCovers(steps[0], steps[1..], l); }
  }

  lemma SkipIsKnown<T>(chain: Chain<T>, steps: seq<Step<Event<T>>>, known: nat, latest: nat)
    requires steps != [] && steps[0].Skip? && 0 < steps[0].lo <= steps[0].hi && steps[0].lo <= latest
    requires NoLeafLost(chain, steps, known, latest)
    ensures Count(chain, Min(steps[0].hi, latest)) <= Count(chain, Max(steps[0].lo - 1, known))
  {
    var last, from := Min(steps[0].hi, latest), Max(steps[0].lo - 1, known);
    if from < last {
      forall k: nat | from < k <= last ensures LeafEvents(chain(k)) == [] {
        assert Inside(steps[0], k) && Skips(steps, k);
      }
      CountStays(chain, from, last);
    } else {
      CountGrows(chain, last, from);
    }
  }

  /** Feeding whole pages: the store takes them all, so no turn can be a refusal, and the
      replica grows with the log, to the end of the range if the fetch succeeds. */
  lemma {:induction false} FetchReplicates<T>(chain: Chain<T>, top: nat, log: seq<Event<T>>, depth: nat,
      s: State<T>, n: nat, steps: seq<Step<Event<T>>>, done: nat, cur: nat, latest: nat, known: nat)
    returns (n': nat)
    requires IsLogUpTo(chain, top, log, depth) && Replica(s, log, n)
    requires WholePages(chain, steps, cur, latest, known) && latest <= top
    requires Count(chain, known) <= n && Count(chain, done) <= n
    requires if cur <= latest then cur == done + 1 else done == latest
    ensures Feed(s, steps, depth).1 <==> NothingThrown(steps)
    ensures n <= n' && Replica(Feed(s, steps, depth).0, log, n')
    ensures Succeeded(steps) ==> Count(chain, latest) <= n'
    decreases |steps|
  {
    n' := n;
    if steps != [] {
      ThrownCons(steps);
      var s1;
      n', s1 := TurnReplicates(chain, top, log, depth, s, n, steps, done, latest, known);
      if !steps[0].Fails() {
        var hi := steps[0].hi;
        n' := FetchReplicates(chain, top, log, depth, s1, n', steps[1..], Min(hi, latest), hi + 1, latest, known);
      }
    }
  }

  /** The first turn, which begins no later than the replica's end. */
  lemma TurnReplicates<T>(chain: Chain<T>, top: nat, log: seq<Event<T>>, depth: nat, s: State<T>, n: nat,
      steps: seq<Step<Event<T>>>, done: nat, latest: nat, known: nat) returns (n': nat, s': State<T>)
    requires IsLogUpTo(chain, top, log, depth) && Replica(s, log, n) && Count(chain, known) <= n
    requires steps != [] && WholePages(chain, steps, steps[0].lo, latest, known)
    requires done + 1 == steps[0].lo && latest <= top && Count(chain, done) <= n
    ensures n <= n' && Replica(s', log, n')
    ensures Feed(s, steps, depth).0 == Feed(s', steps[1..], depth).0
    ensures Feed(s, steps, depth).1 <==> !steps[0].Thrown? && Feed(s', steps[1..], depth).1
    ensures !steps[0].Fails() ==> Count(chain, Min(steps[0].hi, latest)) <= n'
  {
    var step := steps[0];
    n', s' := n, AfterTurn(s, step, depth).0;
    if step.Chunk? && step.events == [] {
      CountSplit(chain, done, step.lo, step.hi);
    } else if step.Chunk? || step.Thrown? {
      n' := PageReplicates(chain, top, log, depth, s, n, done, step.lo, step.hi);
    }
  }

  /** One page that starts no later than the replica's end. */
  lemma PageReplicates<T>(chain: Chain<T>, top: nat, log: seq<Event<T>>, depth: nat, s: State<T>, n: nat,
                          before: nat, lo: nat, hi: nat) returns (n': nat)
    requires IsLogUpTo(chain, top, log, depth) && Replica(s, log, n) && before + 1 == lo <= hi <= top
    requires Count(chain, before) <= n
    ensures n' == Max(Count(chain, hi), n)
    ensures var (s', res) := AfterBatch(s, EventsIn(chain, lo, hi), 0, depth);
      res.Success? && Replica(s', log, n')
  {
    n' := Max(Count(chain, hi), n);
    RangeIsSlice(chain, top, log, depth, before, lo, hi);
    BatchReplicates(depth, log, s, n, EventsIn(chain, lo, hi), Count(chain, before), Count(chain, hi), 0);
  }

  // ----- whole runs

  /** The fetch of an attempt is answered from the chain in whole pages, and the ledgers after
      the last recorded one that it does not reach hold no leaf event. */
  ghost predicate AnsweredInTime<P, T(!new)>(m: Metadata, a: Attempt<P, Event<T>>, chain: Chain<T>, top: nat,
                                             pageSize: nat) {
    && a.latest <= top
    && FirstPages(a.aspRpc, chain, pageSize) && PagesSuffice(chain, AspSteps(a), pageSize)
    && NoLeafLost(chain, AspSteps(a), m.asp.lastLedger, a.latest)
    && Count(chain, StartLedger(a.latest, a.window) - 1) <= Count(chain, m.asp.lastLedger)
  }

  ghost predicate AllAnsweredInTime<P, T(!new)>(m: Metadata, attempts: seq<Attempt<P, Event<T>>>, ids: Ids<P, Event<T>>,
                                             chain: Chain<T>, top: nat, pageSize: nat)
    decreases |attempts|
  {
    attempts != [] ==>
      && (AspFetchRuns(m, attempts[0]) ==> AnsweredInTime(m, attempts[0], chain, top, pageSize))
      && AllAnsweredInTime(AfterSync(m, attempts[0], ids), attempts[1..], ids, chain, top, pageSize)
  }

  /** The replica after the fetches of a run, and whether the store took or refused every
      page as the run has it. */
  function FeedRun<P, T>(m: Metadata, s: State<T>, attempts: seq<Attempt<P, Event<T>>>, ids: Ids<P, Event<T>>,
                      depth: nat): (State<T>, bool)
    decreases |attempts|
  {
    if attempts == [] then (s, true)
    else
      var a := attempts[0];
      var (s1, ok1) := if AspFetchRuns(m, a) then Feed(s, AspSteps(a), depth) else (s, true);
      var (s2, ok2) := FeedRun(AfterSync(m, a, ids), s1, attempts[1..], ids, depth);
      (s2, ok1 && ok2)
  }

  /** No page of the run is said to have been refused. */
  predicate NoneRefused<P, T>(m: Metadata, attempts: seq<Attempt<P, Event<T>>>, ids: Ids<P, Event<T>>)
    decreases |attempts|
  {
    attempts != [] ==>
      && (AspFetchRuns(m, attempts[0]) ==> NothingThrown(AspSteps(attempts[0])))
      && NoneRefused(AfterSync(m, attempts[0], ids), attempts[1..], ids)
  }

  /** Over every run of synchronisations, whatever else fails in them: the store refuses no
      page, the replica is a prefix of the contract's log, and it holds everything published
      up to the recorded ledger. */
  lemma {:induction false} RunReplicates<P, T(!new)>(chain: Chain<T>, top: nat, log: seq<Event<T>>, depth: nat,
      pageSize: nat, m: Metadata, s: State<T>, n: nat, attempts: seq<Attempt<P, Event<T>>>, ids: Ids<P, Event<T>>)
    returns (n': nat)
    requires IsLogUpTo(chain, top, log, depth) && Replica(s, log, n) && Count(chain, m.asp.lastLedger) <= n
    requires AllAnsweredInTime(m, attempts, ids, chain, top, pageSize)
    ensures n <= n' && Replica(FeedRun(m, s, attempts, ids, depth).0, log, n')
    ensures Count(chain, MetadataAfter(m, attempts, ids).asp.lastLedger) <= n'
    ensures FeedRun(m, s, attempts, ids, depth).1 <==> NoneRefused(m, attempts, ids)
    decreases |attempts|
  {
    n' := n;
    if attempts != [] {
      var a := attempts[0];
      var s1 := s;
      if AspFetchRuns(m, a) {
        n' := AttemptReplicates(chain, top, log, depth, pageSize, m, s, n, a);
        s1 := Feed(s, AspSteps(a), depth).0;
      }
      n' := RunReplicates(chain, top, log, depth, pageSize, AfterSync(m, a, ids), s1, n', attempts[1..], ids);
    }
  }

  lemma AttemptReplicates<P, T(!new)>(chain: Chain<T>, top: nat, log: seq<Event<T>>, depth: nat, pageSize: nat,
                                   m: Metadata, s: State<T>, n: nat, a: Attempt<P, Event<T>>) returns (n': nat)
    requires IsLogUpTo(chain, top, log, depth) && Replica(s, log, n) && Count(chain, m.asp.lastLedger) <= n
    requires AnsweredInTime(m, a, chain, top, pageSize)
    ensures Feed(s, AspSteps(a), depth).1 <==> NothingThrown(AspSteps(a))
    ensures n <= n' && Replica(Feed(s, AspSteps(a), depth).0, log, n')
    ensures Succeeded(AspSteps(a)) ==> Count(chain, a.latest) <= n'
  {
    var start, known := StartLedger(a.latest, a.window), m.asp.lastLedger;
    StepsAreTrace(a.aspRpc, a.aspCallback, 0, start, a.latest);
    FetchHasWholePages(a.aspRpc, a.aspCallback, chain, pageSize, 0, start, a.latest, known, AspSteps(a));
    var done := Min(start - 1, a.latest);
    CountGrows(chain, done, start - 1);
    n' := FetchReplicates(chain, top, log, depth, s, n, AspSteps(a), done, start, a.latest, known);
  }

  /** From an empty store: once the recorded ledger is past the last publication, the local
      root is the contract's. */
  lemma SyncedRootIsContractRoot<P, T(!new)>(contract: AspMembership<T>, chain: Chain<T>, top: nat, log: seq<Event<T>>,
      pageSize: nat, attempts: seq<Attempt<P, Event<T>>>, ids: Ids<P, Event<T>>)
    requires contract.Valid() && IsLogUpTo(chain, top, log, contract.levels) && Added(log) == contract.log
    requires AllAnsweredInTime(FRESH, attempts, ids, chain, top, pageSize)
    requires Count(chain, MetadataAfter(FRESH, attempts, ids).asp.lastLedger) == |log|
    ensures var s := FeedRun(FRESH, State([], Some([])), attempts, ids, contract.levels).0;
      && s.tree.Some?
      && TreeRoot(contract.compress, contract.zeroes[0], s.tree.value, contract.levels) == contract.root
  {
    var s: State<T> := State([], Some([]));
    assert log[..0] == [] && Replica(s, log, 0);
    var n := RunReplicates(chain, top, log, contract.levels, pageSize, FRESH, s, 0, attempts, ids);
    ReplicaMatchesContract(contract, log, FeedRun(FRESH, s, attempts, ids, contract.levels).0);
  }

  /** Every attempt's ASP fetch is answered from the chain in whole pages. */
  ghost predicate AllAnswered<P, T(!new)>(attempts: seq<Attempt<P, Event<T>>>, chain: Chain<T>, top: nat,
                                          pageSize: nat) {
    forall i :: 0 <= i < |attempts| ==>
      && attempts[i].latest <= top
      && FirstPages(attempts[i].aspRpc, chain, pageSize)
      && PagesSuffice(chain, AspSteps(attempts[i]), pageSize)
  }

  /** No leaf is published before the ledgers that the fetch covers without a later clamp. */
  ghost predicate StartsBeforeLeaves<P, T>(a: Attempt<P, Event<T>>, chain: Chain<T>) {
    forall l: nat :: 0 < l < FirstOf(AspSteps(a), a.latest, a.window) && l <= a.latest ==> LeafEvents(chain(l)) == []
  }

  lemma FirstSyncAnsweredInTime<P, T(!new)>(a: Attempt<P, Event<T>>, chain: Chain<T>, top: nat, pageSize: nat)
    requires a.latest <= top && FirstPages(a.aspRpc, chain, pageSize) && PagesSuffice(chain, AspSteps(a), pageSize)
    requires Succeeded(AspSteps(a)) && StartsBeforeLeaves(a, chain)
    ensures AnsweredInTime(FRESH, a, chain, top, pageSize)
  {
    FetchesAre(a);
    CountStays(chain, 0, StartLedger(a.latest, a.window) - 1);
  }

  /** A good run whose first fetch starts before the first leaf is answered in time. */
  lemma {:induction false} GoodRunAnsweredInTime<P, T(!new)>(m: Metadata, attempts: seq<Attempt<P, Event<T>>>,
      ids: Ids<P, Event<T>>, chain: Chain<T>, top: nat, pageSize: nat)
    requires GoodRun(m, attempts, ids) && m.pool.lastLedger == m.asp.lastLedger
    requires AllAnswered(attempts, chain, top, pageSize)
    requires attempts != [] && m.asp.lastLedger == 0 ==> StartsBeforeLeaves(attempts[0], chain)
    ensures AllAnsweredInTime(m, attempts, ids, chain, top, pageSize)
    decreases |attempts|
  {
    if attempts != [] {
      var a := attempts[0];
      if m.asp.lastLedger > 0 {
        CountGrows(chain, StartLedger(a.latest, a.window) - 1, m.asp.lastLedger);
      } else {
        FirstSyncAnsweredInTime(a, chain, top, pageSize);
      }
      assert AnsweredInTime(m, a, chain, top, pageSize);
      GoodRunAnsweredInTime(AfterSync(m, a, ids), attempts[1..], ids, chain, top, pageSize);
    }
  }

  /** End to end: a good run whose first fetch starts before the first leaf, with pages that
      suffice, up to the ledger of the contract's state, gives the contract's root. */
  lemma GoodRunGivesContractRoot<P, T(!new)>(contract: AspMembership<T>, chain: Chain<T>, log: seq<Event<T>>,
      pageSize: nat, attempts: seq<Attempt<P, Event<T>>>, ids: Ids<P, Event<T>>)
    requires contract.Valid() && attempts != []
    requires var top := attempts[|attempts| - 1].latest;
      && IsLogUpTo(chain, top, log, contract.levels) && Added(log) == contract.log
      && AllAnswered(attempts, chain, top, pageSize)
    requires GoodRun(FRESH, attempts, ids)
    requires StartsBeforeLeaves(attempts[0], chain)
    ensures var s := FeedRun(FRESH, State([], Some([])), attempts, ids, contract.levels).0;
      && s.tree.Some?
      && TreeRoot(contract.compress, contract.zeroes[0], s.tree.value, contract.levels) == contract.root
  {
    var top := attempts[|attempts| - 1].latest;
    GoodRunAnsweredInTime(FRESH, attempts, ids, chain, top, pageSize);
    LastRecorded(FRESH, attempts, ids);
    SyncedRootIsContractRoot(contract, chain, top, log, pageSize, attempts, ids);
  }
}
