/** The client's synchronisation: retention-window arithmetic, the gap check, and what ledgers
    its fetches have covered. */
module SyncController {
  import opened Common
  import opened EventFetch

  datatype Part = Part(lastLedger: nat, lastCursor: Option<string>, syncBroken: bool)

  datatype Metadata = Metadata(pool: Part, asp: Part)

  const FRESH := Metadata(Part(0, None, false), Part(0, None, false))

  datatype Gap = GapOk | GapWarning | GapBroken

  datatype Status = Syncing | Broken | Failed | Complete(poolEvents: nat, aspEvents: nat)

  /** What throws during one synchronisation outside of the fetches: the reads before them,
      rebuilding the pool's tree, saving the metadata, or the work after that. */
  datatype Faults = Faults(reading: bool, rebuild: bool, save: bool, after: bool)

  /** One synchronisation: whether it is to ignore the cursors, and what the RPC, the stores
      and the chain answer during it. The latest ledger is asked for twice, for the fetches
      and for the gap check; so is the retention window. Counting the local leaves throws if
      there is no count. */
  datatype Attempt<!P, !A> = Attempt(
    forceRefresh: bool,
    latest: nat, window: nat, gapLatest: nat, gapWindow: nat, warningThreshold: nat,
    poolRpc: Rpc<P>, poolCallback: Callback<P>, aspRpc: Rpc<A>, aspCallback: Callback<A>,
    localLeaves: Option<nat>, chainLeaves: Option<nat>, faults: Faults)

  /** The id of an event, which stands in for a page's missing cursor. */
  datatype Ids<!P, !A> = Ids(pool: P -> string, asp: A -> string)

  function LastSynced(m: Metadata): nat { Max(m.pool.lastLedger, m.asp.lastLedger) }

  /** The gap check against the retention window. */
  function CheckSyncGap(m: Metadata, latest: nat, window: nat, warningThreshold: nat): Gap {
    var gap := latest - LastSynced(m);
    if LastSynced(m) == 0 then GapOk
    else if gap > window then GapBroken
    else if gap > warningThreshold then GapWarning
    else GapOk
  }

  predicate PassesGapCheck<P, A>(m: Metadata, a: Attempt<P, A>) {
    !CheckSyncGap(m, a.gapLatest, a.gapWindow, a.warningThreshold).GapBroken?
  }

  /** The first ledger of the retention window that ends at latest. */
  function StartLedger(latest: nat, window: nat): (s: nat)
    ensures s >= 1
  {
    Max(1, latest - window + 1)
  }

  function PoolSteps<P, A>(a: Attempt<P, A>): seq<Step<P>> {
    Steps(a.poolRpc, a.poolCallback, 0, StartLedger(a.latest, a.window), a.latest)
  }

  function AspSteps<P, A>(a: Attempt<P, A>): seq<Step<A>> {
    Steps(a.aspRpc, a.aspCallback, 0, StartLedger(a.latest, a.window), a.latest)
  }

  /** A part's metadata after its fetch; a failed fetch leaves it alone. */
  function AfterFetch<E>(p: Part, steps: seq<Step<E>>, idOf: E -> string, cursor: Option<string>, latest: nat): Part {
    if Succeeded(steps) then Part(latest, CursorOf(steps, idOf, cursor), false) else p
  }

  function LeafCheck(p: Part, local: nat, chain: Option<nat>): Part {
    if chain.Some? && local < chain.value then p.(syncBroken := true) else p
  }

  /** Nothing throws from the first fetch until the metadata is saved. A failed fetch does
      not throw, and the work that follows a successful one is then not done. */
  predicate GetsSaved<P, A>(a: Attempt<P, A>) {
    && !a.faults.reading && !a.faults.save
    && (Succeeded(PoolSteps(a)) ==> !a.faults.rebuild)
    && (Succeeded(AspSteps(a)) ==> a.localLeaves.Some?)
  }

  /** The stored metadata after one synchronisation. */
  function AfterSync<P, A>(m: Metadata, a: Attempt<P, A>, ids: Ids<P, A>): Metadata {
    if a.faults.reading || a.faults.save then m
    else if !PassesGapCheck(m, a)
    then Metadata(m.pool.(syncBroken := true), m.asp.(syncBroken := true))
    else if !GetsSaved(a) then m
    else
      var poolCursor := if a.forceRefresh then None else m.pool.lastCursor;
      var aspCursor := if a.forceRefresh then None else m.asp.lastCursor;
      var asp := AfterFetch(m.asp, AspSteps(a), ids.asp, aspCursor, a.latest);
      Metadata(AfterFetch(m.pool, PoolSteps(a), ids.pool, poolCursor, a.latest),
               if Succeeded(AspSteps(a)) then LeafCheck(asp, a.localLeaves.value, a.chainLeaves) else asp)
  }

  /** What one synchronisation reports. A fetch that fails is not an error to it. */
  function Report<P, A>(m: Metadata, a: Attempt<P, A>): Status {
    if a.faults.reading || a.faults.save || a.faults.after then Failed
    else if !PassesGapCheck(m, a) then Broken
    else if !GetsSaved(a) then Failed
    else Complete(|EventsOf(PoolSteps(a))|, |EventsOf(AspSteps(a))|)
  }

  class Controller<P, A> {
    var metadata: Option<Metadata>
    var isSyncing: bool

    constructor ()
      ensures metadata == None && !isSyncing
    {
      metadata := None;
      isSyncing := false;
    }

    function Current(): Metadata
      reads this
    {
      if metadata.Some? then metadata.value else FRESH
    }

    method StartSync(a: Attempt<P, A>, ids: Ids<P, A>) returns (status: Status)
      requires a.latest > 0
      modifies this
      ensures isSyncing == old(isSyncing)
      ensures old(isSyncing) ==> status == Syncing && metadata == old(metadata)
      ensures !old(isSyncing) ==>
        Current() == AfterSync(old(Current()), a, ids) && status == Report(old(Current()), a)
    {
      if isSyncing {
        return Syncing;
      }
      isSyncing := true;
      status := Synchronise(a, ids);
      isSyncing := false;
    }

    /** The guarded part: a throw ends it, and only what was saved before stays. */
    method Synchronise(a: Attempt<P, A>, ids: Ids<P, A>) returns (status: Status)
      requires a.latest > 0
      modifies this`metadata
      ensures Current() == AfterSync(old(Current()), a, ids) && status == Report(old(Current()), a)
    {
      var m := Current();
      if a.faults.reading {
        return Failed;
      }
      var gap := CheckSyncGap(m, a.gapLatest, a.gapWindow, a.warningThreshold);
      if gap.GapBroken? {
        m := Metadata(m.pool.(syncBroken := true), m.asp.(syncBroken := true));
        status := Save(m, a.faults, Broken);
        return;
      }
      var start := StartLedger(a.latest, a.window);
      var poolCursor := if a.forceRefresh then None else m.pool.lastCursor;
      var poolResult, poolEvents :=
        FetchAllContractEvents(a.poolRpc, a.poolCallback, ids.pool, Some(start), poolCursor, a.latest, None);
      if poolResult.Fetched? {
        m := m.(pool := Part(poolResult.latestLedger, poolResult.cursor, false));
        if a.faults.rebuild {
          return Failed;
        }
      }
      var aspCursor := if a.forceRefresh then None else m.asp.lastCursor;
      var aspResult, aspEvents :=
        FetchAllContractEvents(a.aspRpc, a.aspCallback, ids.asp, Some(start), aspCursor, a.latest, None);
      if aspResult.Fetched? {
        m := m.(asp := Part(aspResult.latestLedger, aspResult.cursor, false));
        if a.localLeaves.None? {
          return Failed;
        }
        if a.chainLeaves.Some? && a.localLeaves.value < a.chainLeaves.value {
          m := m.(asp := m.asp.(syncBroken := true));
        }
      }
      status := Save(m, a.faults, Complete(|poolEvents|, |aspEvents|));
    }

    /** Saving the metadata and the work after it. */
    method Save(m: Metadata, faults: Faults, report: Status) returns (status: Status)
      modifies this`metadata
      ensures metadata == if faults.save then old(metadata) else Some(m)
      ensures status == if faults.save || faults.after then Failed else report
    {
      if faults.save {
        return Failed;
      }
      metadata := Some(m);
      status := if faults.after then Failed else report;
    }
  }

  // ----- the gap check, its flags, and what is reported

  /** Some contract has been synced, and none of the two is within the window. */
  predicate OutOfWindow(m: Metadata, latest: nat, window: nat) {
    && (m.pool.lastLedger > 0 || m.asp.lastLedger > 0)
    && latest - m.pool.lastLedger > window && latest - m.asp.lastLedger > window
  }

  /** The check breaks exactly then, and warns exactly if a synced client is not broken but
      both contracts are further behind than the threshold. */
  lemma GapCheckIs(m: Metadata, latest: nat, window: nat, threshold: nat)
    ensures CheckSyncGap(m, latest, window, threshold) ==
      if OutOfWindow(m, latest, window) then GapBroken
      else if OutOfWindow(m, latest, threshold) then GapWarning
      else GapOk
  {
  }

  /** Out of the window, both contracts are flagged and otherwise left alone, and the report
      says so unless something throws after saving. */
  lemma OutOfWindowIsFlagged<P, A>(m: Metadata, a: Attempt<P, A>, ids: Ids<P, A>)
    requires OutOfWindow(m, a.gapLatest, a.gapWindow) && !a.faults.reading && !a.faults.save
    ensures AfterSync(m, a, ids) == Metadata(
      Part(m.pool.lastLedger, m.pool.lastCursor, true), Part(m.asp.lastLedger, m.asp.lastCursor, true))
    ensures Report(m, a) == if a.faults.after then Failed else Broken
  {
  }

  /** What throws before the metadata are saved. */
  predicate ThrowsBeforeSave<P, A>(m: Metadata, a: Attempt<P, A>) {
    || a.faults.reading || a.faults.save
    || (!OutOfWindow(m, a.gapLatest, a.gapWindow)
        && ((Succeeded(PoolSteps(a)) && a.faults.rebuild) || (Succeeded(AspSteps(a)) && a.localLeaves.None?)))
  }

  /** The report: an error exactly if something threw, which leaves the metadata alone unless
      it came after saving; broken exactly out of the window; else complete, with the numbers
      of events that the callbacks took, from failed fetches too. */
  lemma ReportIs<P, A>(m: Metadata, a: Attempt<P, A>, ids: Ids<P, A>)
    ensures Report(m, a).Failed? <==> ThrowsBeforeSave(m, a) || a.faults.after
    ensures ThrowsBeforeSave(m, a) ==> AfterSync(m, a, ids) == m
    ensures Report(m, a).Broken? ==> OutOfWindow(m, a.gapLatest, a.gapWindow)
    ensures Report(m, a).Complete? ==>
      && !OutOfWindow(m, a.gapLatest, a.gapWindow)
      && Report(m, a).poolEvents == |EventsOf(PoolSteps(a))|
      && Report(m, a).aspEvents == |EventsOf(AspSteps(a))|
    ensures !Report(m, a).Syncing?
  {
  }

  /** A contract's metadata once they are saved: of a successful fetch its end and its cursor,
      which starts over on a forced refresh, and else what they were. */
  lemma FetchIsRecorded<P, A>(m: Metadata, a: Attempt<P, A>, ids: Ids<P, A>)
    requires !ThrowsBeforeSave(m, a) && !OutOfWindow(m, a.gapLatest, a.gapWindow)
    ensures var pool, asp := AfterSync(m, a, ids).pool, AfterSync(m, a, ids).asp;
      && (!Succeeded(PoolSteps(a)) ==> pool == m.pool)
      && (!Succeeded(AspSteps(a)) ==> asp == m.asp)
      && (Succeeded(PoolSteps(a)) ==>
            pool.lastLedger == a.latest &&
            pool.lastCursor == CursorOf(PoolSteps(a), ids.pool, if a.forceRefresh then None else m.pool.lastCursor))
      && (Succeeded(AspSteps(a)) ==>
            asp.lastLedger == a.latest &&
            asp.lastCursor == CursorOf(AspSteps(a), ids.asp, if a.forceRefresh then None else m.asp.lastCursor))
  {
  }

  /** The pool's flag is raised only out of the window, and cleared exactly by a saved
      successful fetch within it. */
  lemma PoolFlagIff<P, A>(m: Metadata, a: Attempt<P, A>, ids: Ids<P, A>)
    ensures var out, saved := OutOfWindow(m, a.gapLatest, a.gapWindow), !ThrowsBeforeSave(m, a);
      AfterSync(m, a, ids).pool.syncBroken <==>
        if m.pool.syncBroken then !(saved && !out && Succeeded(PoolSteps(a))) else saved && out
  {
  }

  /** The ASP's flag as well, except that a saved successful fetch within the window sets it if
      the chain is known to have more leaves than the client. */
  lemma AspFlagIff<P, A>(m: Metadata, a: Attempt<P, A>, ids: Ids<P, A>)
    ensures var out, saved := OutOfWindow(m, a.gapLatest, a.gapWindow), !ThrowsBeforeSave(m, a);
      var lacks := a.chainLeaves.Some? && a.localLeaves.Some? && a.localLeaves.value < a.chainLeaves.value;
      AfterSync(m, a, ids).asp.syncBroken <==>
        if saved && !out && Succeeded(AspSteps(a)) then lacks else m.asp.syncBroken || (saved && out)
  {
  }

  /** Flagged contracts stay as they are over every run that finds them out of the window each
      time: only a gap that looks smaller, or a reset, gets the client going again. */
  lemma {:induction false} BrokenStays<P, A>(m: Metadata, attempts: seq<Attempt<P, A>>, ids: Ids<P, A>)
    requires m.pool.syncBroken && m.asp.syncBroken
    requires forall i :: 0 <= i < |attempts| ==> OutOfWindow(m, attempts[i].gapLatest, attempts[i].gapWindow)
    ensures MetadataAfter(m, attempts, ids) == m
    decreases |attempts|
  {
    if attempts != [] {
      var a, rest := attempts[0], attempts[1..];
      assert OutOfWindow(m, a.gapLatest, a.gapWindow);
      if !ThrowsBeforeSave(m, a) { OutOfWindowIsFlagged(m, a, ids); } else { ReportIs(m, a, ids); }
      assert forall i :: 0 <= i < |rest| ==> rest[i] == attempts[i + 1];
      BrokenStays(m, rest, ids);
    }
  }

  // ----- coverage

  /** The ledgers from first to last have all been fetched. */
  ghost predicate Contiguous(covered: iset<nat>, first: nat, last: nat) {
    forall l: nat :: first <= l <= last ==> l in covered
  }

  ghost predicate IsRange(covered: iset<nat>, first: nat, last: nat) {
    forall l: nat :: l in covered <==> first <= l <= last
  }

  /** The ledgers a fetch has covered. */
  ghost function LedgersOf<E>(steps: seq<Step<E>>): iset<nat> {
    iset l: nat | Covers(steps, l)
  }

  /** No ledger above last, up to latest, is given up by the RPC. */
  ghost predicate NoneLost<E>(steps: seq<Step<E>>, last: nat, latest: nat) {
    forall l: nat :: last < l <= latest ==> !Skips(steps, l)
  }

  /** The steps are a successful fetch of the retention window that ends at latest. */
  ghost predicate IsFetch<E>(steps: seq<Step<E>>, latest: nat, window: nat) {
    && (forall l: nat :: Covers(steps, l) <==> StartLedger(latest, window) <= l <= latest && !Skips(steps, l))
    && StartLedger(latest, window) <= FirstOf(steps, latest, window)
    && (forall l: nat :: Skips(steps, l) ==> l < FirstOf(steps, latest, window))
  }

  /** Where a fetch's covered ledgers begin to be without a gap: after its last clamp. */
  function FirstOf<E>(steps: seq<Step<E>>, latest: nat, window: nat): nat {
    CoveredFrom(steps, StartLedger(latest, window))
  }

  lemma FetchesAre<P, A>(a: Attempt<P, A>)
    ensures Succeeded(PoolSteps(a)) ==> IsFetch(PoolSteps(a), a.latest, a.window)
    ensures Succeeded(AspSteps(a)) ==> IsFetch(AspSteps(a), a.latest, a.window)
  {
    var start := StartLedger(a.latest, a.window);
    StepsAscend(a.poolRpc, a.poolCallback, 0, start, a.latest);
    StepsAscend(a.aspRpc, a.aspCallback, 0, start, a.latest);
    ClampsEnd(PoolSteps(a), start, start, a.latest);
    ClampsEnd(AspSteps(a), start, start, a.latest);
    forall l: nat | Succeeded(PoolSteps(a))
      ensures Covers(PoolSteps(a), l) <==> start <= l <= a.latest && !Skips(PoolSteps(a), l)
    {
      FetchCovers(a.poolRpc, a.poolCallback, 0, start, a.latest, l);
    }
    forall l: nat | Succeeded(AspSteps(a))
      ensures Covers(AspSteps(a), l) <==> start <= l <= a.latest && !Skips(AspSteps(a), l)
    {
      FetchCovers(a.aspRpc, a.aspCallback, 0, start, a.latest, l);
    }
  }

  /** A successful fetch continues a covered range exactly if the retention window reaches
      back to the ledger after its last, and the RPC has given up none of those since. */
  lemma FetchExtendsIff<E>(covered: iset<nat>, first: nat, last: nat, steps: seq<Step<E>>, latest: nat, window: nat)
    requires 0 < first <= last && IsRange(covered, first, last) && IsFetch(steps, latest, window)
    ensures Contiguous(covered + LedgersOf(steps), first, latest)
       <==> latest - last <= window && NoneLost(steps, last, latest)
  {
    var all := covered + LedgersOf(steps);
    forall l: nat | first <= l <= latest
      ensures l in all <==> l <= last || (StartLedger(latest, window) <= l && !Skips(steps, l))
    {
    }
    if latest - last > window {
      assert last + 1 !in all;
    }
  }

  lemma ClampsEndAt<P, A>(a: Attempt<P, A>)
    ensures var start, first := StartLedger(a.latest, a.window), FirstOf(PoolSteps(a), a.latest, a.window);
      start <= first && (first == start || Skips(PoolSteps(a), first - 1))
    ensures var start, first := StartLedger(a.latest, a.window), FirstOf(AspSteps(a), a.latest, a.window);
      start <= first && (first == start || Skips(AspSteps(a), first - 1))
  {
    var start := StartLedger(a.latest, a.window);
    StepsAscend(a.poolRpc, a.poolCallback, 0, start, a.latest);
    StepsAscend(a.aspRpc, a.aspCallback, 0, start, a.latest);
    ClampsEnd(PoolSteps(a), start, start, a.latest);
    ClampsEnd(AspSteps(a), start, start, a.latest);
  }

  /** What an RPC's retention means to a fetch: its covered ledgers begin no later than the
      window and the oldest retained ledger do, and nothing since the recorded ledger is lost
      if the one after it is retained. */
  lemma RetainedInTime<P(!new), A(!new)>(m: Metadata, a: Attempt<P, A>, r: nat)
    ensures RetainsFrom(a.poolRpc, r) ==>
      FirstOf(PoolSteps(a), a.latest, a.window) <= Max(StartLedger(a.latest, a.window), r)
    ensures RetainsFrom(a.aspRpc, r) ==>
      FirstOf(AspSteps(a), a.latest, a.window) <= Max(StartLedger(a.latest, a.window), r)
    ensures RetainsFrom(a.poolRpc, r) && r <= m.pool.lastLedger + 1 ==>
      NoneLost(PoolSteps(a), m.pool.lastLedger, a.latest)
    ensures RetainsFrom(a.aspRpc, r) && r <= m.asp.lastLedger + 1 ==>
      NoneLost(AspSteps(a), m.asp.lastLedger, a.latest)
  {
    var start := StartLedger(a.latest, a.window);
    ClampsEndAt(a);
    forall l: nat | Skips(PoolSteps(a), l) && RetainsFrom(a.poolRpc, r) ensures l < r {
      RetainedIsNotSkipped(a.poolRpc, a.poolCallback, 0, start, a.latest, r, l);
    }
    forall l: nat | Skips(AspSteps(a), l) && RetainsFrom(a.aspRpc, r) ensures l < r {
      RetainedIsNotSkipped(a.aspRpc, a.aspCallback, 0, start, a.latest, r, l);
    }
  }

  /** Two synced parts of which both fetches succeed: with the gap check passed, no gap opens
      exactly if the less recent of the two is within the window and the RPC gives up nothing
      new. The check itself looks at the more recent one. */
  lemma NoGapOpensIff<P, A>(m: Metadata, a: Attempt<P, A>, ids: Ids<P, A>,
                         pool: iset<nat>, first: nat, asp: iset<nat>, first': nat)
    requires PassesGapCheck(m, a) && GetsSaved(a) && Succeeded(PoolSteps(a)) && Succeeded(AspSteps(a))
    requires 0 < first <= m.pool.lastLedger && IsRange(pool, first, m.pool.lastLedger)
    requires 0 < first' <= m.asp.lastLedger && IsRange(asp, first', m.asp.lastLedger)
    ensures var m' := AfterSync(m, a, ids);
      (&& Contiguous(pool + LedgersOf(PoolSteps(a)), first, m'.pool.lastLedger)
       && Contiguous(asp + LedgersOf(AspSteps(a)), first', m'.asp.lastLedger))
      <==> && a.latest - Min(m.pool.lastLedger, m.asp.lastLedger) <= a.window
           && NoneLost(PoolSteps(a), m.pool.lastLedger, a.latest)
           && NoneLost(AspSteps(a), m.asp.lastLedger, a.latest)
  {
    FetchesAre(a);
    FetchExtendsIff(pool, first, m.pool.lastLedger, PoolSteps(a), a.latest, a.window);
    FetchExtendsIff(asp, first', m.asp.lastLedger, AspSteps(a), a.latest, a.window);
  }

  /** A pool further behind than the window, next to an ASP that is within it: the check
      passes, the pool is recorded as synced to the latest ledger and not broken, and this
      fetch covers no ledger between its last one and the window. */
  lemma LaggingPoolUnnoticed<P, A>(m: Metadata, a: Attempt<P, A>, ids: Ids<P, A>)
    requires 0 < m.pool.lastLedger && a.latest - m.pool.lastLedger > a.window
    requires 0 < m.asp.lastLedger && a.gapLatest - m.asp.lastLedger <= a.gapWindow
    requires GetsSaved(a) && Succeeded(PoolSteps(a))
    ensures var m' := AfterSync(m, a, ids);
      && PassesGapCheck(m, a)
      && m'.pool.lastLedger == a.latest && !m'.pool.syncBroken
    ensures m.pool.lastLedger + 1 < StartLedger(a.latest, a.window)
    ensures forall l :: m.pool.lastLedger < l < StartLedger(a.latest, a.window) ==> l !in LedgersOf(PoolSteps(a))
  {
    FetchesAre(a);
  }

  /** The same for the ASP, which is flagged only if the chain is known to have more leaves. */
  lemma LaggingAspUnnoticed<P, A>(m: Metadata, a: Attempt<P, A>, ids: Ids<P, A>)
    requires 0 < m.asp.lastLedger && a.latest - m.asp.lastLedger > a.window
    requires 0 < m.pool.lastLedger && a.gapLatest - m.pool.lastLedger <= a.gapWindow
    requires GetsSaved(a) && Succeeded(AspSteps(a))
    ensures var m' := AfterSync(m, a, ids);
      && PassesGapCheck(m, a)
      && m'.asp.lastLedger == a.latest
      && (m'.asp.syncBroken <==> a.chainLeaves.Some? && a.localLeaves.value < a.chainLeaves.value)
    ensures m.asp.lastLedger + 1 < StartLedger(a.latest, a.window)
    ensures forall l :: m.asp.lastLedger < l < StartLedger(a.latest, a.window) ==> l !in LedgersOf(AspSteps(a))
  {
    FetchesAre(a);
  }

  // ----- whole runs

  /** What has been fetched so far: the metadata, and for each contract its fetched ledgers
      and the span, from the last clamp of its first recorded fetch to the highest ledger of
      any recorded one. */
  datatype History = History(metadata: Metadata, pool: Coverage, asp: Coverage)

  datatype Coverage = Coverage(ledgers: iset<nat>, first: nat, highest: nat)

  const NOTHING := History(FRESH, Coverage(iset{}, 1, 0), Coverage(iset{}, 1, 0))

  predicate PoolFetchRuns<P, A>(m: Metadata, a: Attempt<P, A>) {
    !a.faults.reading && PassesGapCheck(m, a)
  }

  predicate AspFetchRuns<P, A>(m: Metadata, a: Attempt<P, A>) {
    PoolFetchRuns(m, a) && !(Succeeded(PoolSteps(a)) && a.faults.rebuild)
  }

  /** One contract after a fetch, which counts as recorded if the metadata says so. */
  ghost function AfterFetching<E>(f: Coverage, p: Part, runs: bool, recorded: bool, steps: seq<Step<E>>,
                                  latest: nat, window: nat): Coverage {
    if !runs then f
    else
      var ledgers := f.ledgers + LedgersOf(steps);
      if !recorded then f.(ledgers := ledgers)
      else if p.lastLedger == 0 then Coverage(ledgers, FirstOf(steps, latest, window), latest)
      else Coverage(ledgers, f.first, Max(f.highest, latest))
  }

  predicate PoolRecorded<P, A>(m: Metadata, a: Attempt<P, A>) {
    PassesGapCheck(m, a) && GetsSaved(a) && Succeeded(PoolSteps(a))
  }

  predicate AspRecorded<P, A>(m: Metadata, a: Attempt<P, A>) {
    PassesGapCheck(m, a) && GetsSaved(a) && Succeeded(AspSteps(a))
  }

  ghost function AfterAttempt<P, A>(w: History, a: Attempt<P, A>, ids: Ids<P, A>): History {
    var m := w.metadata;
    History(
      AfterSync(m, a, ids),
      AfterFetching(w.pool, m.pool, PoolFetchRuns(m, a), PoolRecorded(m, a), PoolSteps(a), a.latest, a.window),
      AfterFetching(w.asp, m.asp, AspFetchRuns(m, a), AspRecorded(m, a), AspSteps(a), a.latest, a.window))
  }

  ghost function AfterAttempts<P, A>(w: History, attempts: seq<Attempt<P, A>>, ids: Ids<P, A>): History
    decreases |attempts|
  {
    if attempts == [] then w else AfterAttempts(AfterAttempt(w, attempts[0], ids), attempts[1..], ids)
  }

  /** The recorded ledger is one up to which everything has been fetched. */
  ghost predicate Faithful(f: Coverage, p: Part) {
    p.lastLedger <= f.highest && Contiguous(f.ledgers, f.first, f.highest)
  }

  ghost predicate FaithfulBoth(w: History) {
    Faithful(w.pool, w.metadata.pool) && Faithful(w.asp, w.metadata.asp)
  }

  /** A synced contract is within the window, and the RPC gives up nothing new. A first fetch
      may start after what is no longer retained. */
  ghost predicate InTime<E>(p: Part, steps: seq<Step<E>>, latest: nat, window: nat) {
    p.lastLedger > 0 ==> latest - p.lastLedger <= window && NoneLost(steps, p.lastLedger, latest)
  }

  /** Whatever fails, every fetch that gets recorded was in time. */
  ghost predicate RecordedInTime<P, A>(m: Metadata, attempts: seq<Attempt<P, A>>, ids: Ids<P, A>)
    decreases |attempts|
  {
    attempts != [] ==>
      var a := attempts[0];
      && (PoolRecorded(m, a) ==> InTime(m.pool, PoolSteps(a), a.latest, a.window))
      && (AspRecorded(m, a) ==> InTime(m.asp, AspSteps(a), a.latest, a.window))
      && RecordedInTime(AfterSync(m, a, ids), attempts[1..], ids)
  }

  lemma FetchKeepsFaithful<E>(f: Coverage, p: Part, p': Part, runs: bool, recorded: bool, steps: seq<Step<E>>,
                              latest: nat, window: nat)
    requires Faithful(f, p) && (recorded ==> runs && IsFetch(steps, latest, window) && InTime(p, steps, latest, window))
    requires p'.lastLedger == if recorded then latest else p.lastLedger
    ensures Faithful(AfterFetching(f, p, runs, recorded, steps, latest, window), p')
  {
  }

  /** Over every run of synchronisations, whatever fails in them, both contracts' recorded
      ledgers stay true: everything from the first recorded fetch on has been fetched, as
      long as each recorded fetch was in time for its own contract. */
  lemma {:induction false} RunKeepsFaithful<P, A>(w: History, attempts: seq<Attempt<P, A>>, ids: Ids<P, A>)
    requires FaithfulBoth(w) && RecordedInTime(w.metadata, attempts, ids)
    ensures FaithfulBoth(AfterAttempts(w, attempts, ids))
    decreases |attempts|
  {
    if attempts != [] {
      var a, m := attempts[0], w.metadata;
      var m' := AfterSync(m, a, ids);
      FetchesAre(a);
      FetchKeepsFaithful(w.pool, m.pool, m'.pool, PoolFetchRuns(m, a), PoolRecorded(m, a), PoolSteps(a), a.latest,
        a.window);
      FetchKeepsFaithful(w.asp, m.asp, m'.asp, AspFetchRuns(m, a), AspRecorded(m, a), AspSteps(a), a.latest, a.window);
      RunKeepsFaithful(AfterAttempt(w, a, ids), attempts[1..], ids);
    }
  }

  /** A synchronisation in which nothing goes wrong: the check passes, nothing throws, both
      fetches succeed, the RPC gives up nothing since a last recorded ledger, the window is the
      same for both uses, and the gap check sees no older ledger than the fetches. */
  ghost predicate GoodSync<P, A>(m: Metadata, a: Attempt<P, A>) {
    && PoolRecorded(m, a) && AspRecorded(m, a)
    && a.gapWindow == a.window && 0 < a.latest <= a.gapLatest
    && (m.pool.lastLedger > 0 ==> NoneLost(PoolSteps(a), m.pool.lastLedger, a.latest))
    && (m.asp.lastLedger > 0 ==> NoneLost(AspSteps(a), m.asp.lastLedger, a.latest))
  }

  /** Good synchronisations one after the other. */
  ghost predicate GoodRun<P, A>(m: Metadata, attempts: seq<Attempt<P, A>>, ids: Ids<P, A>)
    decreases |attempts|
  {
    attempts != [] ==>
      GoodSync(m, attempts[0]) && GoodRun(AfterSync(m, attempts[0], ids), attempts[1..], ids)
  }

  /** If both fetches always succeed, the gap check is about both contracts. */
  lemma {:induction false} GoodRunInTime<P, A>(m: Metadata, attempts: seq<Attempt<P, A>>, ids: Ids<P, A>)
    requires GoodRun(m, attempts, ids) && m.pool.lastLedger == m.asp.lastLedger
    ensures RecordedInTime(m, attempts, ids)
    decreases |attempts|
  {
    if attempts != [] {
      GoodRunInTime(AfterSync(m, attempts[0], ids), attempts[1..], ids);
    }
  }

  function MetadataAfter<P, A>(m: Metadata, attempts: seq<Attempt<P, A>>, ids: Ids<P, A>): Metadata
    decreases |attempts|
  {
    if attempts == [] then m else MetadataAfter(AfterSync(m, attempts[0], ids), attempts[1..], ids)
  }

  lemma {:induction false} LastRecorded<P, A>(m: Metadata, attempts: seq<Attempt<P, A>>, ids: Ids<P, A>)
    requires GoodRun(m, attempts, ids) && attempts != []
    ensures var m' := MetadataAfter(m, attempts, ids);
      m'.pool.lastLedger == m'.asp.lastLedger == attempts[|attempts| - 1].latest
    decreases |attempts|
  {
    var m', rest := AfterSync(m, attempts[0], ids), attempts[1..];
    if rest == [] {
      assert MetadataAfter(m, attempts, ids) == MetadataAfter(m', rest, ids) == m';
    } else {
      LastRecorded(m', rest, ids);
    }
  }

  function HighestOf<P, A>(attempts: seq<Attempt<P, A>>, highest: nat): nat {
    if attempts == [] then highest else HighestOf(attempts[1..], Max(highest, attempts[0].latest))
  }

  lemma {:induction false} GoodRunSpan<P, A>(w: History, attempts: seq<Attempt<P, A>>, ids: Ids<P, A>)
    requires GoodRun(w.metadata, attempts, ids)
    requires w.metadata.pool.lastLedger > 0 && w.metadata.asp.lastLedger > 0
    ensures var w' := AfterAttempts(w, attempts, ids);
      && w'.pool.first == w.pool.first && w'.pool.highest == HighestOf(attempts, w.pool.highest)
      && w'.asp.first == w.asp.first && w'.asp.highest == HighestOf(attempts, w.asp.highest)
    decreases |attempts|
  {
    if attempts != [] {
      GoodRunSpan(AfterAttempt(w, attempts[0], ids), attempts[1..], ids);
    }
  }

  /** Over every good run from nothing each contract's events are fetched without a gap, from
      the last clamp of the first synchronisation, or its start, up to the highest ledger of
      any. */
  lemma RunCovers<P, A>(attempts: seq<Attempt<P, A>>, ids: Ids<P, A>)
    requires attempts != [] && GoodRun(FRESH, attempts, ids)
    ensures var a, w := attempts[0], AfterAttempts(NOTHING, attempts, ids);
      && Contiguous(w.pool.ledgers, FirstOf(PoolSteps(a), a.latest, a.window), HighestOf(attempts, 0))
      && Contiguous(w.asp.ledgers, FirstOf(AspSteps(a), a.latest, a.window), HighestOf(attempts, 0))
  {
    GoodRunInTime(FRESH, attempts, ids);
    RunKeepsFaithful(NOTHING, attempts, ids);
    GoodRunSpan(AfterAttempt(NOTHING, attempts[0], ids), attempts[1..], ids);
  }

  /** At the ledger given, with a window of 17280, the ASP is fetched and all is saved. */
  predicate AspSyncsAt<P, A>(a: Attempt<P, A>, ledger: nat) {
    && a.latest == a.gapLatest == ledger && a.window == a.gapWindow == 17280
    && GetsSaved(a) && Succeeded(AspSteps(a))
  }

  /** A gap that nothing notices, from nothing on: both contracts are fetched at ledger 1000,
      the pool's RPC fails at 17000, and at 30000 the check passes and the pool is recorded as
      synced to 30000, although no fetch has covered any of the ledgers 1001 to 12720. */
  lemma LaggingPoolExample<P, A>(a: Attempt<P, A>, b: Attempt<P, A>, c: Attempt<P, A>, ids: Ids<P, A>)
    requires AspSyncsAt(a, 1000) && Succeeded(PoolSteps(a))
    requires AspSyncsAt(b, 17000) && forall k, lo, hi :: b.poolRpc(k, lo, hi).OtherError?
    requires AspSyncsAt(c, 30000) && Succeeded(PoolSteps(c))
    ensures var w := AfterAttempts(NOTHING, [a, b, c], ids);
      && w.metadata.pool.lastLedger == 30000 && !w.metadata.pool.syncBroken
      && forall l :: 1001 <= l <= 12720 ==> l !in w.pool.ledgers
  {
    var w1 := AfterAttempt(NOTHING, a, ids);
    var w2 := AfterAttempt(w1, b, ids);
    AllInSteps(NOTHING, a, b, c, ids);
    SyncedTo1000(a, ids);
    PoolFailsAt17000(w1, b, ids);
    LaggingPoolUnnoticed(w2.metadata, c, ids);
  }

  lemma AllInSteps<P, A>(w: History, a: Attempt<P, A>, b: Attempt<P, A>, c: Attempt<P, A>, ids: Ids<P, A>)
    ensures AfterAttempts(w, [a, b, c], ids) == AfterAttempt(AfterAttempt(AfterAttempt(w, a, ids), b, ids), c, ids)
  {
    var w1 := AfterAttempt(w, a, ids);
    var w2 := AfterAttempt(w1, b, ids);
    assert [a, b, c][1..] == [b, c] && [b, c][1..] == [c];
    assert AfterAttempts(w2, [c], ids) == AfterAttempts(AfterAttempt(w2, c, ids), [], ids);
    assert AfterAttempts(w1, [b, c], ids) == AfterAttempts(w2, [c], ids);
  }

  lemma SyncedTo1000<P, A>(a: Attempt<P, A>, ids: Ids<P, A>)
    requires AspSyncsAt(a, 1000) && Succeeded(PoolSteps(a))
    ensures var w := AfterAttempt(NOTHING, a, ids);
      && w.metadata.pool.lastLedger == w.metadata.asp.lastLedger == 1000
      && forall l :: l in w.pool.ledgers ==> l <= 1000
  {
    FetchesAre(a);
  }

  lemma PoolFailsAt17000<P, A>(w: History, b: Attempt<P, A>, ids: Ids<P, A>)
    requires AspSyncsAt(b, 17000) && forall k, lo, hi :: b.poolRpc(k, lo, hi).OtherError?
    requires w.metadata.pool.lastLedger == w.metadata.asp.lastLedger == 1000
    ensures var w' := AfterAttempt(w, b, ids);
      && w'.metadata.pool == w.metadata.pool && w'.metadata.asp.lastLedger == 17000
      && w'.pool.ledgers == w.pool.ledgers
  {
    assert PoolSteps(b) == [Abort(1, 5000)];
    assert PoolSteps(b)[0].Fails();
    assert LedgersOf(PoolSteps(b)) == iset{};
  }
}
