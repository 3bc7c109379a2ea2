/** Fetching a contract's events in chunks of ledgers from an RPC with limited retention. */
module EventFetch {
  import opened Common

  const CHUNK_SIZE: nat := 5000

  /** What the RPC says to a request for events: a page with a cursor ("" when absent), the
      ledger range it still retains, or some other error. */
  datatype Response<E> =
    | Page(events: seq<E>, cursor: string)
    | RangeError(oldest: nat, newest: nat)
    | OtherError

  /** The RPC's answer to the k-th request, for the ledgers from first to last. */
  type Rpc<!E> = (nat, nat, nat) -> Response<E>

  /** Whether the page callback takes the k-th answer's events; it throws on the others. */
  type Callback<!E> = (nat, seq<E>) -> bool

  /** One turn of the loop: a fetched chunk, ledgers given up as no longer retained, or a
      failure, of the request or of the callback. */
  datatype Step<E> =
    | Chunk(lo: nat, hi: nat, events: seq<E>, cursor: string)
    | Skip(lo: nat, hi: nat)
    | Thrown(lo: nat, hi: nat, events: seq<E>)
    | Abort(lo: nat, hi: nat)
  {
    predicate Fails() { Thrown? || Abort? }
  }

  datatype FetchResult<E> =
    | Fetched(cursor: Option<string>, latestLedger: nat, count: nat)
    | FetchFailed(cursor: Option<string>)

  /** The turns of the loop from ledger cur to latest. The callback only sees nonempty pages. */
  function Steps<E>(rpc: Rpc<E>, callback: Callback<E>, k: nat, cur: nat, latest: nat): seq<Step<E>>
    decreases latest + 1 - cur
  {
    if cur > latest then []
    else
      var end := Min(latest, cur + CHUNK_SIZE - 1);
      match rpc(k, cur, end)
      case Page(events, cursor) =>
        if events == [] || callback(k, events)
        then [Chunk(cur, end, events, cursor)] + Steps(rpc, callback, k + 1, end + 1, latest)
        else [Thrown(cur, end, events)]
      case RangeError(oldest, _) =>
        if cur < oldest then [Skip(cur, oldest - 1)] + Steps(rpc, callback, k + 1, oldest, latest)
        else [Abort(cur, end)]
      case OtherError => [Abort(cur, end)]
  }

  predicate Succeeded<E>(steps: seq<Step<E>>) {
    forall i :: 0 <= i < |steps| ==> !steps[i].Fails()
  }

  predicate NothingThrown<E>(steps: seq<Step<E>>) {
    forall i :: 0 <= i < |steps| ==> !steps[i].Thrown?
  }

  lemma ThrownCons<E>(steps: seq<Step<E>>)
    requires steps != []
    ensures NothingThrown(steps) <==> !steps[0].Thrown? && NothingThrown(steps[1..])
    ensures Succeeded(steps) <==> !steps[0].Fails() && Succeeded(steps[1..])
  {
    assert forall i :: 0 <= i < |steps[1..]| ==> steps[i + 1] == steps[1..][i];
  }

  function EventsBy<E>(s: Step<E>): seq<E> { if s.Chunk? then s.events else [] }

  /** The events the callback has taken. */
  function EventsOf<E>(steps: seq<Step<E>>): seq<E> {
    if steps == [] then []
    else EventsBy(steps[0]) + EventsOf(steps[1..])
  }

  /** The cursor of the last page that had events, its last event's id standing in for a
      missing one. */
  function CursorOf<E>(steps: seq<Step<E>>, idOf: E -> string, initial: Option<string>): Option<string> {
    if steps == [] then initial else CursorOf(steps[1..], idOf, CursorAfter(steps[0], idOf, initial))
  }

  function CursorAfter<E>(s: Step<E>, idOf: E -> string, cursor: Option<string>): Option<string> {
    if s.Chunk? then PageCursor(s.events, s.cursor, idOf, cursor) else cursor
  }

  function PageCursor<E>(events: seq<E>, cursor: string, idOf: E -> string, before: Option<string>): Option<string> {
    if events == [] then before
    else Some(if cursor == "" then idOf(events[|events| - 1]) else cursor)
  }

  /** The turns from an optional start: comparing an absent start with the end is false, so
      there are none. */
  function StepsFrom<E>(rpc: Rpc<E>, callback: Callback<E>, startLedger: Option<nat>, latest: nat): seq<Step<E>> {
    if startLedger.None? then [] else Steps(rpc, callback, 0, startLedger.value, latest)
  }

  /** The fetch loop. With neither a start nor a cursor, 0 and "" counting as absent, it fails
      at once. An end of 0 stands for an absent one; the latest ledger of the network
      is then asked for, and None is a failure to answer. `delivered` is what the page
      callback has taken, on failure too. */
  method FetchAllContractEvents<E>(rpc: Rpc<E>, callback: Callback<E>, idOf: E -> string, startLedger: Option<nat>,
                                   initialCursor: Option<string>, fixedEnd: nat, networkLatest: Option<nat>)
    returns (res: FetchResult<E>, delivered: seq<E>)
    ensures var absent := startLedger in {None, Some(0)} && initialCursor in {None, Some("")};
      if absent then res == FetchFailed(None) && delivered == []
      else if fixedEnd == 0 && networkLatest.None? then res == FetchFailed(initialCursor) && delivered == []
      else
        var latest := if fixedEnd == 0 then networkLatest.value else fixedEnd;
        var steps := StepsFrom(rpc, callback, startLedger, latest);
        && delivered == EventsOf(steps)
        && res == (if Succeeded(steps)
                   then Fetched(CursorOf(steps, idOf, initialCursor), latest, |delivered|)
                   else FetchFailed(initialCursor))
        && (startLedger.None? ==> res == Fetched(initialCursor, latest, 0) && delivered == [])
  {
    delivered := [];
    if (startLedger.None? || startLedger.value == 0) && (initialCursor.None? || initialCursor.value == "") {
      return FetchFailed(None), [];
    }
    var latestLedger := fixedEnd;
    if latestLedger == 0 {
      if networkLatest.None? {
        return FetchFailed(initialCursor), [];
      }
      latestLedger := networkLatest.value;
    }
    if startLedger.None? {
      return Fetched(initialCursor, latestLedger, 0), [];
    }
    var ok, cursor;
    ok, cursor, delivered := FetchChunks(rpc, callback, idOf, startLedger.value, latestLedger, initialCursor);
    LoopIsSteps(rpc, callback, 0, startLedger.value, latestLedger, idOf, initialCursor, []);
    res := if ok then Fetched(cursor, latestLedger, |delivered|) else FetchFailed(initialCursor);
  }

  /** The loop over chunks. */
  method FetchChunks<E>(rpc: Rpc<E>, callback: Callback<E>, idOf: E -> string, startLedger: nat,
                        latestLedger: nat, initialCursor: Option<string>)
    returns (ok: bool, cursor: Option<string>, delivered: seq<E>)
    ensures (ok, cursor, delivered) == Loop(rpc, callback, 0, startLedger, latestLedger, idOf, initialCursor, [])
  {
    delivered := [];
    cursor := initialCursor;
    var current, k := startLedger, 0;
    while current <= latestLedger
      invariant Loop(rpc, callback, k, current, latestLedger, idOf, cursor, delivered)
             == Loop(rpc, callback, 0, startLedger, latestLedger, idOf, initialCursor, [])
      decreases latestLedger + 1 - current
    {
      var end := Min(latestLedger, current + CHUNK_SIZE - 1);
      match rpc(k, current, end) {
        case RangeError(oldest, newest) =>
          if current < oldest {
            current := oldest;
          } else {
            return false, cursor, delivered;
          }
        case OtherError =>
          return false, cursor, delivered;
        case Page(events, pageCursor) =>
          if events != [] {
            cursor := PageCursor(events, pageCursor, idOf, cursor);
            if !callback(k, events) {
              return false, cursor, delivered;
            }
            delivered := delivered + events;
          }
          current := end + 1;
      }
      k := k + 1;
    }
    ok := true;
  }

  /** How the loop ends from a given turn on: success, cursor, events delivered. */
  function Loop<E>(rpc: Rpc<E>, callback: Callback<E>, k: nat, cur: nat, latest: nat, idOf: E -> string,
                   cursor: Option<string>, delivered: seq<E>): (bool, Option<string>, seq<E>)
    decreases latest + 1 - cur
  {
    if cur > latest then (true, cursor, delivered)
    else
      var end := Min(latest, cur + CHUNK_SIZE - 1);
      match rpc(k, cur, end)
      case Page(events, c) =>
        if events == [] then Loop(rpc, callback, k + 1, end + 1, latest, idOf, cursor, delivered)
        else
          var cursor' := PageCursor(events, c, idOf, cursor);
          if callback(k, events)
          then Loop(rpc, callback, k + 1, end + 1, latest, idOf, cursor', delivered + events)
          else (false, cursor', delivered)
      case RangeError(oldest, _) =>
        if cur < oldest then Loop(rpc, callback, k + 1, oldest, latest, idOf, cursor, delivered)
        else (false, cursor, delivered)
      case OtherError => (false, cursor, delivered)
  }

  /** A result of the loop is that of its turns. */
  predicate EndsAs<E(==)>(r: (bool, Option<string>, seq<E>), steps: seq<Step<E>>, idOf: E -> string,
                          cursor: Option<string>, delivered: seq<E>) {
    && r.0 == Succeeded(steps) && r.2 == delivered + EventsOf(steps)
    && (r.0 ==> r.1 == CursorOf(steps, idOf, cursor))
  }

  lemma {:induction false} LoopIsSteps<E>(rpc: Rpc<E>, callback: Callback<E>, k: nat, cur: nat, latest: nat,
                                          idOf: E -> string, cursor: Option<string>, delivered: seq<E>)
    ensures EndsAs(Loop(rpc, callback, k, cur, latest, idOf, cursor, delivered),
                   Steps(rpc, callback, k, cur, latest), idOf, cursor, delivered)
    decreases latest + 1 - cur
  {
    if cur <= latest {
      var steps := Steps(rpc, callback, k, cur, latest);
      StepsUnfold(rpc, callback, k, cur, latest);
      LoopUnfold(rpc, callback, k, cur, latest, idOf, cursor, delivered);
      var s, r := steps[0], Loop(rpc, callback, k, cur, latest, idOf, cursor, delivered);
      if s.Fails() {
        FailedTurn(r, steps, idOf, cursor, delivered);
      } else {
        LoopIsSteps(rpc, callback, k + 1, s.hi + 1, latest, idOf, CursorAfter(s, idOf, cursor),
          delivered + EventsBy(s));
        GoodTurn(r, steps, idOf, cursor, delivered);
      }
    }
  }

  lemma LoopUnfold<E>(rpc: Rpc<E>, callback: Callback<E>, k: nat, cur: nat, latest: nat, idOf: E -> string,
                      cursor: Option<string>, delivered: seq<E>)
    requires cur <= latest && Steps(rpc, callback, k, cur, latest) != []
    ensures var r := Loop(rpc, callback, k, cur, latest, idOf, cursor, delivered);
      var s := Steps(rpc, callback, k, cur, latest)[0];
      if s.Fails() then !r.0 && r.2 == delivered
      else r == Loop(rpc, callback, k + 1, s.hi + 1, latest, idOf, CursorAfter(s, idOf, cursor),
                     delivered + EventsBy(s))
  {
    var none: seq<E> := [];
    assert delivered + none == delivered;
  }

  lemma GoodTurn<E>(r: (bool, Option<string>, seq<E>), steps: seq<Step<E>>, idOf: E -> string,
                    cursor: Option<string>, delivered: seq<E>)
    requires steps != [] && !steps[0].Fails()
    requires EndsAs(r, steps[1..], idOf, CursorAfter(steps[0], idOf, cursor), delivered + EventsBy(steps[0]))
    ensures EndsAs(r, steps, idOf, cursor, delivered)
  {
    assert Succeeded(steps) <==> Succeeded(steps[1..]) by {
      assert forall i :: 0 <= i < |steps[1..]| ==> steps[i + 1] == steps[1..][i];
    }
    var rest := EventsOf(steps[1..]);
    assert delivered + (EventsBy(steps[0]) + rest) == (delivered + EventsBy(steps[0])) + rest;
  }

  lemma FailedTurn<E>(r: (bool, Option<string>, seq<E>), steps: seq<Step<E>>, idOf: E -> string,
                      cursor: Option<string>, delivered: seq<E>)
    requires steps != [] && steps[0].Fails() && steps[1..] == [] && !r.0 && r.2 == delivered
    ensures EndsAs(r, steps, idOf, cursor, delivered)
  {
  }

  /** The first turn, and the turns after it. */
  lemma StepsUnfold<E>(rpc: Rpc<E>, callback: Callback<E>, k: nat, cur: nat, latest: nat)
    requires cur <= latest
    ensures var steps := Steps(rpc, callback, k, cur, latest);
      && steps != [] && steps[0].lo == cur <= steps[0].hi
      && (steps[0].Chunk? ==> steps[0].hi <= latest && steps[0].hi < cur + CHUNK_SIZE)
      && (steps[0].Fails() ==> steps[1..] == [])
      && (!steps[0].Fails() ==> steps[1..] == Steps(rpc, callback, k + 1, steps[0].hi + 1, latest))
  {
  }

  // ----- what a turn says of the RPC's answer

  /** The turn is what the k-th answer calls for: a page is a chunk of at most 5000 ledgers,
      which the callback takes or throws on; a range error above the turn's start gives up the
      ledgers before the oldest one retained; any other error ends the loop. */
  ghost predicate AnswersTo<E>(rpc: Rpc<E>, callback: Callback<E>, k: nat, latest: nat, s: Step<E>) {
    var end := if latest - s.lo < 4999 then latest else s.lo + 4999;
    match s
    case Chunk(_, hi, events, cursor) =>
      hi == end && rpc(k, s.lo, end) == Page(events, cursor) && (events == [] || callback(k, events))
    case Thrown(_, hi, events) =>
      && hi == end && rpc(k, s.lo, end).Page? && rpc(k, s.lo, end).events == events
      && events != [] && !callback(k, events)
    case Skip(_, hi) =>
      rpc(k, s.lo, end).RangeError? && s.lo < rpc(k, s.lo, end).oldest && hi == rpc(k, s.lo, end).oldest - 1
    case Abort(_, hi) =>
      && hi == end
      && (rpc(k, s.lo, end).OtherError? || (rpc(k, s.lo, end).RangeError? && rpc(k, s.lo, end).oldest <= s.lo))
  }

  lemma TurnFacts<E>(rpc: Rpc<E>, callback: Callback<E>, k: nat, latest: nat, s: Step<E>)
    requires AnswersTo(rpc, callback, k, latest, s) && s.lo <= latest
    ensures s.lo <= s.hi
    ensures s.Chunk? || s.Thrown? ==>
      s.hi <= latest && rpc(k, s.lo, s.hi).Page? && s.events == rpc(k, s.lo, s.hi).events
  {
  }

  /** The turns answer to one request after the other, each from where the one before ended,
      until one fails or the range is at its end. */
  ghost predicate IsTrace<E>(rpc: Rpc<E>, callback: Callback<E>, k: nat, cur: nat, latest: nat, steps: seq<Step<E>>)
    decreases |steps|
  {
    if steps == [] then cur > latest
    else
      && cur <= latest && steps[0].lo == cur && AnswersTo(rpc, callback, k, latest, steps[0])
      && (if steps[0].Fails() then steps[1..] == []
          else IsTrace(rpc, callback, k + 1, steps[0].hi + 1, latest, steps[1..]))
  }

  lemma {:induction false} StepsAreTrace<E>(rpc: Rpc<E>, callback: Callback<E>, k: nat, cur: nat, latest: nat)
    ensures IsTrace(rpc, callback, k, cur, latest, Steps(rpc, callback, k, cur, latest))
    decreases latest + 1 - cur
  {
    if cur <= latest {
      FirstAnswers(rpc, callback, k, cur, latest);
      StepsUnfold(rpc, callback, k, cur, latest);
      var s := Steps(rpc, callback, k, cur, latest)[0];
      if !s.Fails() { StepsAreTrace(rpc, callback, k + 1, s.hi + 1, latest); }
    }
  }

  lemma FirstAnswers<E>(rpc: Rpc<E>, callback: Callback<E>, k: nat, cur: nat, latest: nat)
    requires cur <= latest
    ensures var steps := Steps(rpc, callback, k, cur, latest);
      steps != [] && AnswersTo(rpc, callback, k, latest, steps[0])
  {
    var end := Min(latest, cur + 4999);
    assert rpc(k, cur, end) == rpc(k, cur, Min(latest, cur + CHUNK_SIZE - 1));
  }

  /** The i-th of the turns, if there is one, and what comes after it. */
  ghost predicate IsTurn<E>(rpc: Rpc<E>, callback: Callback<E>, k: nat, cur: nat, latest: nat, steps: seq<Step<E>>,
                            i: nat) {
    && steps != [] && steps[0].lo == cur
    && (i < |steps| ==> steps[i].lo <= latest && AnswersTo(rpc, callback, k + i, latest, steps[i]))
    && (i + 1 < |steps| ==> !steps[i].Fails() && steps[i + 1].lo == steps[i].hi + 1)
    && (i + 1 == |steps| ==> steps[i].Fails() || steps[i].hi >= latest)
  }

  lemma {:induction false} TraceTurn<E>(rpc: Rpc<E>, callback: Callback<E>, k: nat, cur: nat, latest: nat,
                                        steps: seq<Step<E>>, i: nat)
    requires cur <= latest && IsTrace(rpc, callback, k, cur, latest, steps)
    ensures IsTurn(rpc, callback, k, cur, latest, steps, i)
    decreases i
  {
    var rest := steps[1..];
    if rest != [] {
      assert rest[0] == steps[1];
      if i > 0 {
        TraceTurn(rpc, callback, k + 1, steps[0].hi + 1, latest, rest, i - 1);
        assert i < |steps| ==> rest[i - 1] == steps[i];
        assert i + 1 < |steps| ==> rest[i] == steps[i + 1];
        assert k + 1 + (i - 1) == k + i;
      }
    }
  }

  /** Every turn answers to its own request, each starts where the one before ended, and the
      loop ends with a failure or at the end of the range. */
  lemma TurnsAnswer<E>(rpc: Rpc<E>, callback: Callback<E>, k: nat, cur: nat, latest: nat, i: nat)
    requires cur <= latest
    ensures IsTurn(rpc, callback, k, cur, latest, Steps(rpc, callback, k, cur, latest), i)
  {
    StepsAreTrace(rpc, callback, k, cur, latest);
    TraceTurn(rpc, callback, k, cur, latest, Steps(rpc, callback, k, cur, latest), i);
  }

  /** The RPC never says that it has given up a ledger from r on. */
  ghost predicate RetainsFrom<E(!new)>(rpc: Rpc<E>, r: nat) {
    forall k, lo, hi :: rpc(k, lo, hi).RangeError? ==> rpc(k, lo, hi).oldest <= r
  }

  /** Such an RPC makes the loop skip no ledger from r on. */
  lemma RetainedIsNotSkipped<E(!new)>(rpc: Rpc<E>, callback: Callback<E>, k: nat, cur: nat, latest: nat, r: nat,
                                      ledger: nat)
    requires RetainsFrom(rpc, r) && Skips(Steps(rpc, callback, k, cur, latest), ledger)
    ensures ledger < r
  {
    var steps := Steps(rpc, callback, k, cur, latest);
    var i :| 0 <= i < |steps| && steps[i].Skip? && Inside(steps[i], ledger);
    TurnsAnswer(rpc, callback, k, cur, latest, i);
  }

  // ----- which ledgers are fetched

  predicate Inside<E>(step: Step<E>, ledger: nat) { step.lo <= ledger <= step.hi }

  /** A ledger in some fetched chunk. */
  ghost predicate Covers<E>(steps: seq<Step<E>>, ledger: nat) {
    exists i :: 0 <= i < |steps| && steps[i].Chunk? && Inside(steps[i], ledger)
  }

  ghost predicate Skips<E>(steps: seq<Step<E>>, ledger: nat) {
    exists i :: 0 <= i < |steps| && steps[i].Skip? && Inside(steps[i], ledger)
  }

  /** Ascending, disjoint turns from cur on; no chunk leaves the range or is too long. */
  ghost predicate InOrder<E>(steps: seq<Step<E>>, cur: nat, latest: nat) {
    && (forall i :: 0 <= i < |steps| ==> cur <= steps[i].lo <= steps[i].hi && steps[i].lo <= latest)
    && (forall i, j :: 0 <= i < j < |steps| ==> steps[i].hi < steps[j].lo)
    && (forall i :: 0 <= i < |steps| && steps[i].Chunk? ==>
          steps[i].hi <= latest && steps[i].hi < steps[i].lo + CHUNK_SIZE)
  }

  lemma {:induction false} StepsAscend<E>(rpc: Rpc<E>, callback: Callback<E>, k: nat, cur: nat, latest: nat)
    ensures InOrder(Steps(rpc, callback, k, cur, latest), cur, latest)
    decreases latest + 1 - cur
  {
    if cur <= latest {
      var steps := Steps(rpc, callback, k, cur, latest);
      StepsUnfold(rpc, callback, k, cur, latest);
      if !steps[0].Fails() {
        StepsAscend(rpc, callback, k + 1, steps[0].hi + 1, latest);
      }
      InOrderCons(steps, cur, latest);
    }
  }

  lemma InOrderCons<E>(steps: seq<Step<E>>, cur: nat, latest: nat)
    requires steps != [] && cur == steps[0].lo <= steps[0].hi && cur <= latest
    requires steps[0].Chunk? ==> steps[0].hi <= latest && steps[0].hi < cur + CHUNK_SIZE
    requires InOrder(steps[1..], steps[0].hi + 1, latest)
    ensures InOrder(steps, cur, latest)
  {
    assert forall i :: 0 < i < |steps| ==> steps[i] == steps[1..][i - 1];
  }

  /** A successful fetch covers exactly its range, except what the RPC no longer retains. */
  lemma {:induction false} FetchCovers<E>(rpc: Rpc<E>, callback: Callback<E>, k: nat, cur: nat, latest: nat,
                                          ledger: nat)
    requires Succeeded(Steps(rpc, callback, k, cur, latest))
    ensures var steps := Steps(rpc, callback, k, cur, latest);
      Covers(steps, ledger) <==> cur <= ledger <= latest && !Skips(steps, ledger)
    decreases latest + 1 - cur
  {
    if cur <= latest {
      var steps := Steps(rpc, callback, k, cur, latest);
      StepsUnfold(rpc, callback, k, cur, latest);
      assert !steps[0].Fails();
      var next, rest := steps[0].hi + 1, steps[1..];
      assert steps == [steps[0]] + rest;
      assert Succeeded(rest) by { TailSucceeds(steps); }
      FetchCovers(rpc, callback, k + 1, next, latest, ledger);
      ConsCovers(steps[0], rest, ledger);
      StepsAscend(rpc, callback, k + 1, next, latest);
      if ledger < next { NothingBefore(rest, next, latest, ledger); }
    }
  }

  /** The ledger after the last clamp, or the start if there is none. */
  function CoveredFrom<E>(steps: seq<Step<E>>, start: nat): nat {
    if steps == [] then start
    else CoveredFrom(steps[1..], if steps[0].Skip? then steps[0].hi + 1 else start)
  }

  /** No ledger from there on is given up; the one before it is, unless it is the start. */
  lemma {:induction false} ClampsEnd<E>(steps: seq<Step<E>>, start: nat, cur: nat, latest: nat)
    requires InOrder(steps, cur, latest) && start <= cur
    ensures start <= CoveredFrom(steps, start)
    ensures forall l: nat :: Skips(steps, l) ==> l < CoveredFrom(steps, start)
    ensures CoveredFrom(steps, start) == start || Skips(steps, CoveredFrom(steps, start) - 1)
    decreases |steps|
  {
    if steps != [] {
      var s, rest := steps[0], steps[1..];
      assert steps == [s] + rest;
      assert InOrder(rest, s.hi + 1, latest) by {
        assert forall i :: 0 <= i < |rest| ==> rest[i] == steps[i + 1];
      }
      var start' := if s.Skip? then s.hi + 1 else start;
      ClampsEnd(rest, start', s.hi + 1, latest);
      forall l: nat ensures Skips(steps, l) <==> (s.Skip? && Inside(s, l)) || Skips(rest, l) { ConsCovers(s, rest, l); }
    }
  }

  /** Against an RPC that retains the ledgers from r on, a successful fetch covers all of its
      range from there on. */
  lemma RetainedAreCovered<E(!new)>(rpc: Rpc<E>, callback: Callback<E>, k: nat, cur: nat, latest: nat, r: nat,
                                    ledger: nat)
    requires RetainsFrom(rpc, r) && Succeeded(Steps(rpc, callback, k, cur, latest))
    requires cur <= ledger <= latest && r <= ledger
    ensures Covers(Steps(rpc, callback, k, cur, latest), ledger)
  {
    FetchCovers(rpc, callback, k, cur, latest, ledger);
    if Skips(Steps(rpc, callback, k, cur, latest), ledger) {
      RetainedIsNotSkipped(rpc, callback, k, cur, latest, r, ledger);
    }
  }

  /** The cursor that a fetch reports: that of the last page that had events, or the id of its
      last event if the page had none, and without any events the one it was given. */
  lemma {:induction false} CursorIsLast<E>(steps: seq<Step<E>>, idOf: E -> string, initial: Option<string>, j: int)
    requires -1 <= j < |steps|
    requires forall i :: j < i < |steps| && steps[i].Chunk? ==> steps[i].events == []
    requires j >= 0 ==> steps[j].Chunk? && steps[j].events != []
    ensures CursorOf(steps, idOf, initial) ==
      if j < 0 then initial
      else if steps[j].cursor != "" then Some(steps[j].cursor)
      else Some(idOf(steps[j].events[|steps[j].events| - 1]))
    decreases |steps|
  {
    if steps != [] {
      var rest := steps[1..];
      assert forall i :: 0 <= i < |rest| ==> rest[i] == steps[i + 1];
      CursorIsLast(rest, idOf, CursorAfter(steps[0], idOf, initial), if j <= 0 then -1 else j - 1);
    }
  }

  lemma TailSucceeds<E>(steps: seq<Step<E>>)
    requires steps != [] && Succeeded(steps)
    ensures Succeeded(steps[1..])
  {
    forall i | 0 <= i < |steps[1..]| ensures !steps[1..][i].Fails() { assert steps[i + 1] == steps[1..][i]; }
  }

  lemma NothingBefore<E>(steps: seq<Step<E>>, cur: nat, latest: nat, ledger: nat)
    requires InOrder(steps, cur, latest) && ledger < cur
    ensures !Covers(steps, ledger) && !Skips(steps, ledger)
  {
  }

  lemma ConsCovers<E>(s: Step<E>, rest: seq<Step<E>>, ledger: nat)
    ensures Covers([s] + rest, ledger) <==> (s.Chunk? && Inside(s, ledger)) || Covers(rest, ledger)
    ensures Skips([s] + rest, ledger) <==> (s.Skip? && Inside(s, ledger)) || Skips(rest, ledger)
  {
    var steps := [s] + rest;
    assert forall i :: 0 <= i < |rest| ==> steps[i + 1] == rest[i];
    assert steps[0] == s;
  }

  // ----- completeness within a chunk

  /** The events of the ledgers from lo to hi. */
  function EventsIn<E>(chain: nat -> seq<E>, lo: nat, hi: nat): seq<E>
    decreases hi + 1 - lo
  {
    if lo > hi then [] else chain(lo) + EventsIn(chain, lo + 1, hi)
  }

  /** The events of those ledgers from lo to hi that the turns cover. */
  ghost function CoveredEvents<E>(chain: nat -> seq<E>, steps: seq<Step<E>>, lo: nat, hi: nat): seq<E>
    decreases hi + 1 - lo
  {
    if lo > hi then []
    else (if Covers(steps, lo) then chain(lo) else []) + CoveredEvents(chain, steps, lo + 1, hi)
  }

  /** Every page the RPC answers with is the first one of the requested ledgers. */
  ghost predicate FirstPages<E(!new)>(rpc: Rpc<E>, chain: nat -> seq<E>, pageSize: nat) {
    forall k, lo, hi :: rpc(k, lo, hi).Page? ==>
      rpc(k, lo, hi).events == FirstPage(EventsIn(chain, lo, hi), pageSize)
  }

  function FirstPage<E>(events: seq<E>, pageSize: nat): seq<E> {
    if |events| <= pageSize then events else events[..pageSize]
  }

  /** The events of every requested range fit one page. */
  ghost predicate PagesSuffice<E>(chain: nat -> seq<E>, steps: seq<Step<E>>, pageSize: nat) {
    forall i :: 0 <= i < |steps| && (steps[i].Chunk? || steps[i].Thrown?) ==>
      |EventsIn(chain, steps[i].lo, steps[i].hi)| <= pageSize
  }

  lemma {:induction false} EventsSplit<E>(chain: nat -> seq<E>, lo: nat, mid: nat, hi: nat)
    requires lo <= mid + 1 <= hi + 1
    ensures EventsIn(chain, lo, hi) == EventsIn(chain, lo, mid) + EventsIn(chain, mid + 1, hi)
    decreases mid + 1 - lo
  {
    if lo <= mid { EventsSplit(chain, lo + 1, mid, hi); }
  }

  lemma {:induction false} CoveredSplit<E>(chain: nat -> seq<E>, steps: seq<Step<E>>, lo: nat, mid: nat, hi: nat)
    requires lo <= mid + 1 <= hi + 1
    ensures CoveredEvents(chain, steps, lo, hi)
         == CoveredEvents(chain, steps, lo, mid) + CoveredEvents(chain, steps, mid + 1, hi)
    decreases mid + 1 - lo
  {
    if lo <= mid { CoveredSplit(chain, steps, lo + 1, mid, hi); }
  }

  lemma {:induction false} CoveredAll<E>(chain: nat -> seq<E>, steps: seq<Step<E>>, lo: nat, hi: nat)
    requires forall l :: lo <= l <= hi ==> Covers(steps, l)
    ensures CoveredEvents(chain, steps, lo, hi) == EventsIn(chain, lo, hi)
    decreases hi + 1 - lo
  {
    if lo <= hi { CoveredAll(chain, steps, lo + 1, hi); }
  }

  lemma {:induction false} CoveredNone<E>(chain: nat -> seq<E>, steps: seq<Step<E>>, lo: nat, hi: nat)
    requires forall l :: lo <= l <= hi ==> !Covers(steps, l)
    ensures CoveredEvents(chain, steps, lo, hi) == []
    decreases hi + 1 - lo
  {
    if lo <= hi { CoveredNone(chain, steps, lo + 1, hi); }
  }

  lemma {:induction false} CoveredSame<E>(chain: nat -> seq<E>, a: seq<Step<E>>, b: seq<Step<E>>, lo: nat, hi: nat)
    requires forall l :: lo <= l <= hi ==> (Covers(a, l) <==> Covers(b, l))
    ensures CoveredEvents(chain, a, lo, hi) == CoveredEvents(chain, b, lo, hi)
    decreases hi + 1 - lo
  {
    if lo <= hi { CoveredSame(chain, a, b, lo + 1, hi); }
  }

  /** Every chunk holds the first page of its ledgers, and no turn is a failure. */
  ghost predicate ChunksAreFirst<E>(chain: nat -> seq<E>, steps: seq<Step<E>>, pageSize: nat) {
    forall i :: 0 <= i < |steps| ==>
      && !steps[i].Fails()
      && (steps[i].Chunk? ==>
            steps[i].events == FirstPage(EventsIn(chain, steps[i].lo, steps[i].hi), pageSize))
  }

  lemma {:induction false} StepsAreFirst<E(!new)>(rpc: Rpc<E>, callback: Callback<E>, chain: nat -> seq<E>,
                                                  pageSize: nat, k: nat, cur: nat, latest: nat)
    requires FirstPages(rpc, chain, pageSize) && Succeeded(Steps(rpc, callback, k, cur, latest))
    ensures ChunksAreFirst(chain, Steps(rpc, callback, k, cur, latest), pageSize)
    decreases latest + 1 - cur
  {
    if cur <= latest {
      var steps := Steps(rpc, callback, k, cur, latest);
      StepsUnfold(rpc, callback, k, cur, latest);
      assert !steps[0].Fails();
      TailSucceeds(steps);
      var next := steps[0].hi + 1;
      StepsAreFirst(rpc, callback, chain, pageSize, k + 1, next, latest);
      assert steps[0].Chunk? ==> steps[0].events == rpc(k, cur, steps[0].hi).events;
      FirstCons(chain, steps, pageSize);
    }
  }

  lemma FirstCons<E>(chain: nat -> seq<E>, steps: seq<Step<E>>, pageSize: nat)
    requires steps != [] && ChunksAreFirst(chain, steps[1..], pageSize) && !steps[0].Fails()
    requires steps[0].Chunk? ==> steps[0].events == FirstPage(EventsIn(chain, steps[0].lo, steps[0].hi), pageSize)
    ensures ChunksAreFirst(chain, steps, pageSize)
  {
    assert forall i :: 0 < i < |steps| ==> steps[i] == steps[1..][i - 1];
  }

  /** The turns find every event of the covered ledgers exactly if no chunk holds more events
      than a page; otherwise they find fewer. */
  ghost predicate CompleteIff<E>(chain: nat -> seq<E>, steps: seq<Step<E>>, pageSize: nat, cur: nat, latest: nat) {
    if PagesSuffice(chain, steps, pageSize) then EventsOf(steps) == CoveredEvents(chain, steps, cur, latest)
    else |EventsOf(steps)| < |CoveredEvents(chain, steps, cur, latest)|
  }

  /** One request a chunk is complete exactly if every chunk's events fit one page. */
  lemma FetchCompleteIff<E(!new)>(rpc: Rpc<E>, callback: Callback<E>, chain: nat -> seq<E>,
                                  pageSize: nat, k: nat, cur: nat, latest: nat)
    requires FirstPages(rpc, chain, pageSize) && Succeeded(Steps(rpc, callback, k, cur, latest))
    ensures CompleteIff(chain, Steps(rpc, callback, k, cur, latest), pageSize, cur, latest)
  {
    StepsAreFirst(rpc, callback, chain, pageSize, k, cur, latest);
    StepsAscend(rpc, callback, k, cur, latest);
    TurnsCompleteIff(chain, Steps(rpc, callback, k, cur, latest), pageSize, cur, latest);
  }

  lemma {:induction false} TurnsCompleteIff<E>(chain: nat -> seq<E>, steps: seq<Step<E>>, pageSize: nat,
                                               cur: nat, latest: nat)
    requires InOrder(steps, cur, latest) && ChunksAreFirst(chain, steps, pageSize)
    ensures CompleteIff(chain, steps, pageSize, cur, latest)
    decreases |steps|
  {
    if steps == [] {
      CoveredNone(chain, steps, cur, latest);
    } else {
      var s, rest := steps[0], steps[1..];
      assert steps == [s] + rest;
      assert InOrder(rest, s.hi + 1, latest) && ChunksAreFirst(chain, rest, pageSize) by {
        assert forall i :: 0 <= i < |rest| ==> rest[i] == steps[i + 1];
      }
      TurnsCompleteIff(chain, rest, pageSize, s.hi + 1, latest);
      CoveredCons(chain, s, rest, cur, latest);
      SufficeCons(chain, s, rest, pageSize);
    }
  }

  /** The first turn's share of the covered events. */
  lemma CoveredCons<E>(chain: nat -> seq<E>, s: Step<E>, rest: seq<Step<E>>, cur: nat, latest: nat)
    requires !s.Fails() && cur <= s.lo <= s.hi && s.lo <= latest && (s.Chunk? ==> s.hi <= latest)
    requires InOrder(rest, s.hi + 1, latest)
    ensures CoveredEvents(chain, [s] + rest, cur, latest) ==
      (if s.Chunk? then EventsIn(chain, s.lo, s.hi) else []) + CoveredEvents(chain, rest, s.hi + 1, latest)
  {
    CoveredSplit(chain, [s] + rest, cur, Min(s.hi, latest), latest);
    CoveredFirst(chain, s, rest, cur, latest);
    CoveredLater(chain, s, rest, latest);
  }

  lemma CoveredFirst<E>(chain: nat -> seq<E>, s: Step<E>, rest: seq<Step<E>>, cur: nat, latest: nat)
    requires !s.Fails() && cur <= s.lo <= s.hi && s.lo <= latest && (s.Chunk? ==> s.hi <= latest)
    requires InOrder(rest, s.hi + 1, latest)
    ensures CoveredEvents(chain, [s] + rest, cur, Min(s.hi, latest)) ==
      if s.Chunk? then EventsIn(chain, s.lo, s.hi) else []
  {
    var steps, mid := [s] + rest, Min(s.hi, latest);
    forall l | cur <= l <= s.hi ensures Covers(steps, l) <==> s.Chunk? && s.lo <= l {
      ConsCovers(s, rest, l);
      NothingBefore(rest, s.hi + 1, latest, l);
    }
    if s.Chunk? {
      CoveredAll(chain, steps, s.lo, mid);
      if cur < s.lo {
        CoveredSplit(chain, steps, cur, s.lo - 1, mid);
        CoveredNone(chain, steps, cur, s.lo - 1);
      }
    } else {
      CoveredNone(chain, steps, cur, mid);
    }
  }

  lemma CoveredLater<E>(chain: nat -> seq<E>, s: Step<E>, rest: seq<Step<E>>, latest: nat)
    ensures CoveredEvents(chain, [s] + rest, Min(s.hi, latest) + 1, latest) ==
      CoveredEvents(chain, rest, s.hi + 1, latest)
  {
    forall l | s.hi < l ensures Covers([s] + rest, l) <==> Covers(rest, l) {
      ConsCovers(s, rest, l);
    }
    CoveredSame(chain, [s] + rest, rest, s.hi + 1, latest);
  }

  lemma SufficeCons<E>(chain: nat -> seq<E>, s: Step<E>, rest: seq<Step<E>>, pageSize: nat)
    ensures PagesSuffice(chain, [s] + rest, pageSize)
      <==> (s.Chunk? || s.Thrown? ==> |EventsIn(chain, s.lo, s.hi)| <= pageSize) && PagesSuffice(chain, rest, pageSize)
  {
    var steps := [s] + rest;
    assert steps[0] == s;
    assert forall i :: 0 <= i < |rest| ==> steps[i + 1] == rest[i];
  }

  /** A fetch that gives up no ledger finds the whole range exactly if pages suffice. */
  lemma FetchFindsAllIff<E(!new)>(rpc: Rpc<E>, callback: Callback<E>, chain: nat -> seq<E>, pageSize: nat,
                                  k: nat, cur: nat, latest: nat)
    requires FirstPages(rpc, chain, pageSize) && Succeeded(Steps(rpc, callback, k, cur, latest))
    requires forall l :: cur <= l <= latest ==> !Skips(Steps(rpc, callback, k, cur, latest), l)
    ensures var steps := Steps(rpc, callback, k, cur, latest);
      EventsOf(steps) == EventsIn(chain, cur, latest) <==> PagesSuffice(chain, steps, pageSize)
  {
    var steps := Steps(rpc, callback, k, cur, latest);
    forall l | cur <= l <= latest ensures Covers(steps, l) {
      FetchCovers(rpc, callback, k, cur, latest, l);
    }
    CoveredAll(chain, steps, cur, latest);
    FetchCompleteIff(rpc, callback, chain, pageSize, k, cur, latest);
  }

  /** The RPC answers with a range error exactly below r, which is then the oldest ledger it
      names. */
  ghost predicate RetainsExactly<E(!new)>(rpc: Rpc<E>, r: nat) {
    forall k: nat, lo: nat, hi: nat :: if lo < r then rpc(k, lo, hi).RangeError? && rpc(k, lo, hi).oldest == r
                        else !rpc(k, lo, hi).RangeError?
  }

  lemma GivenUpIsNotCovered<E(!new)>(rpc: Rpc<E>, callback: Callback<E>, k: nat, cur: nat, latest: nat, r: nat,
                                     ledger: nat)
    requires RetainsExactly(rpc, r) && cur <= latest && ledger < r
    ensures !Covers(Steps(rpc, callback, k, cur, latest), ledger)
  {
    var steps := Steps(rpc, callback, k, cur, latest);
    forall i | 0 <= i < |steps| && steps[i].Chunk? ensures !Inside(steps[i], ledger) {
      TurnsAnswer(rpc, callback, k, cur, latest, i);
      TurnFacts(rpc, callback, k + i, latest, steps[i]);
    }
  }

  /** Against such an RPC, with pages that suffice, a successful fetch delivers exactly the
      events of its range from r on. */
  lemma RetainedFound<E(!new)>(rpc: Rpc<E>, callback: Callback<E>, chain: nat -> seq<E>, pageSize: nat,
                               k: nat, cur: nat, latest: nat, r: nat)
    requires RetainsExactly(rpc, r) && FirstPages(rpc, chain, pageSize) && cur <= latest
    requires Succeeded(Steps(rpc, callback, k, cur, latest))
    requires PagesSuffice(chain, Steps(rpc, callback, k, cur, latest), pageSize)
    ensures EventsOf(Steps(rpc, callback, k, cur, latest)) == EventsIn(chain, Max(cur, r), latest)
  {
    FetchCompleteIff(rpc, callback, chain, pageSize, k, cur, latest);
    forall l: nat | Max(cur, r) <= l <= latest ensures Covers(Steps(rpc, callback, k, cur, latest), l) {
      RetainedAreCovered(rpc, callback, k, cur, latest, r, l);
    }
    forall l: nat | l < r ensures !Covers(Steps(rpc, callback, k, cur, latest), l) {
      GivenUpIsNotCovered(rpc, callback, k, cur, latest, r, l);
    }
    CoveredFromOn(chain, Steps(rpc, callback, k, cur, latest), cur, r, latest);
  }

  lemma CoveredFromOn<E>(chain: nat -> seq<E>, steps: seq<Step<E>>, cur: nat, r: nat, latest: nat)
    requires cur <= latest
    requires forall l: nat :: Max(cur, r) <= l <= latest ==> Covers(steps, l)
    requires forall l: nat :: l < r ==> !Covers(steps, l)
    ensures CoveredEvents(chain, steps, cur, latest) == EventsIn(chain, Max(cur, r), latest)
  {
    var first := Max(cur, r);
    if first <= latest {
      CoveredAll(chain, steps, first, latest);
      if cur < first {
        CoveredSplit(chain, steps, cur, first - 1, latest);
        CoveredNone(chain, steps, cur, first - 1);
      }
    } else {
      CoveredNone(chain, steps, cur, latest);
    }
  }

  lemma {:induction false} LedgerWithin<E>(chain: nat -> seq<E>, lo: nat, hi: nat, l: nat)
    requires lo <= l <= hi
    ensures |chain(l)| <= |EventsIn(chain, lo, hi)|
    decreases l - lo
  {
    if lo < l { LedgerWithin(chain, lo + 1, hi, l); }
  }

  /** A covered ledger with more events than a page loses some, although the fetch succeeds. */
  lemma BusyLedgerLosesEvents<E(!new)>(rpc: Rpc<E>, callback: Callback<E>, chain: nat -> seq<E>, pageSize: nat,
                                       k: nat, cur: nat, latest: nat, l: nat)
    requires FirstPages(rpc, chain, pageSize) && Succeeded(Steps(rpc, callback, k, cur, latest))
    requires Covers(Steps(rpc, callback, k, cur, latest), l) && |chain(l)| > pageSize
    ensures var steps := Steps(rpc, callback, k, cur, latest);
      |EventsOf(steps)| < |CoveredEvents(chain, steps, cur, latest)|
  {
    var steps := Steps(rpc, callback, k, cur, latest);
    var i :| 0 <= i < |steps| && steps[i].Chunk? && Inside(steps[i], l);
    LedgerWithin(chain, steps[i].lo, steps[i].hi, l);
    assert !PagesSuffice(chain, steps, pageSize);
    FetchCompleteIff(rpc, callback, chain, pageSize, k, cur, latest);
  }

  /** The RPC that answers every request with its first page. */
  function PagingRpc<E>(chain: nat -> seq<E>, pageSize: nat): Rpc<E> {
    (k: nat, lo: nat, hi: nat) => Page(FirstPage(EventsIn(chain, lo, hi), pageSize), "")
  }

  /** Two events in ledger 7 and pages of one: the second is lost and the fetch succeeds. */
  lemma SecondEventLost(chain: nat -> seq<string>, callback: Callback<string>)
    requires chain(7) == ["a", "b"] && callback(0, ["a"])
    ensures var steps := Steps(PagingRpc(chain, 1), callback, 0, 7, 7);
      Succeeded(steps) && EventsIn(chain, 7, 7) == ["a", "b"] && EventsOf(steps) == ["a"]
  {
    var rpc := PagingRpc(chain, 1);
    assert EventsIn(chain, 7, 7) == ["a", "b"] + EventsIn(chain, 8, 7);
    assert rpc(0, 7, 7) == Page(["a"], "");
    assert Steps(rpc, callback, 0, 7, 7) == [Chunk(7, 7, ["a"], "")] + Steps(rpc, callback, 1, 8, 7);
  }
}
