/** The circuit breaker kept in the columns of a route row. */
module CircuitBreaker {
  import opened LostUpdates
  import opened Options

  datatype State = Closed | Open | HalfOpen

  datatype Row = Row(enabled: bool, threshold: nat, recoveryTimeout: nat,
                     state: State, failureCount: nat, openedAt: Option<int>, lastFailureAt: Option<int>)

  // ---------------------------------------------------------------------
  // One call: what it decides from the row it read, and the update it then makes.
  // ---------------------------------------------------------------------

  datatype Update =
    | Nothing
    | ToHalfOpen
    | ToClosed
    | ToOpen(count: Option<nat>, at: int)
    | SetCount(failures: nat, failedAt: int)
    | ClearCount

  function Written(row: Row, u: Update): Row {
    match u
    case Nothing => row
    case ToHalfOpen => row.(state := HalfOpen)
    case ToClosed => row.(state := Closed, failureCount := 0, openedAt := None, lastFailureAt := None)
    case ToOpen(count, at) =>
      row.(state := Open, openedAt := Some(at), lastFailureAt := Some(at),
           failureCount := if count.Some? then count.value else row.failureCount)
    case SetCount(failures, at) => row.(failureCount := failures, lastFailureAt := Some(at))
    case ClearCount => row.(failureCount := 0)
  }

  /** May a request pass, judging by the row `read`? */
  predicate Admits(read: Row, now: int) {
    || !read.enabled || read.state != Open || read.openedAt.None?
    || now - read.openedAt.value >= read.recoveryTimeout
  }

  function OnCheck(read: Row, now: int): Update {
    if !read.enabled || read.state != Open then Nothing
    else if read.openedAt.None? then ToClosed // marked in the source as a case that should not happen
    else if now - read.openedAt.value >= read.recoveryTimeout then ToHalfOpen
    else Nothing
  }

  function OnSuccess(read: Row): Update {
    if !read.enabled then Nothing
    else if read.state == HalfOpen then ToClosed
    else if read.state == Closed then ClearCount
    else Nothing
  }

  function OnFailure(read: Row, now: int): Update {
    if !read.enabled then Nothing
    else if read.state == HalfOpen then ToOpen(None, now)
    else if read.failureCount + 1 >= read.threshold then ToOpen(Some(read.failureCount + 1), now)
    else SetCount(read.failureCount + 1, now)
  }

  /** The breaker columns of one route, each call reading and writing them in one go. */
  class Breaker {
    var row: Row

    constructor (enabled: bool, threshold: nat, recoveryTimeout: nat)
      ensures row == Fresh(enabled, threshold, recoveryTimeout)
    {
      row := Row(enabled, threshold, recoveryTimeout, Closed, 0, None, None);
    }

    method CheckCircuitBreaker(now: int) returns (allowed: bool, state: State)
      modifies this
      ensures row == Written(old(row), OnCheck(old(row), now))
      ensures allowed == Admits(old(row), now)
      ensures state == if old(row).enabled then row.state else Closed
    {
      if !row.enabled { return true, Closed; }
      if row.state == Closed { return true, Closed; }
      if row.state == Open {
        if row.openedAt.None? {
          ResetCircuitBreaker();
          return true, Closed;
        }
        var elapsed := now - row.openedAt.value;
        if elapsed >= row.recoveryTimeout {
          row := row.(state := HalfOpen);
          return true, HalfOpen;
        }
        return false, Open;
      }
      return true, HalfOpen;
    }

    method RecordSuccess()
      modifies this
      ensures row == Written(old(row), OnSuccess(old(row)))
    {
      if !row.enabled { return; }
      if row.state == HalfOpen {
        ResetCircuitBreaker();
      } else if row.state == Closed {
        row := row.(failureCount := 0);
      }
    }

    method RecordFailure(now: int)
      modifies this
      ensures row == Written(old(row), OnFailure(old(row), now))
    {
      if !row.enabled { return; }
      if row.state == HalfOpen {
        row := row.(state := Open, openedAt := Some(now), lastFailureAt := Some(now));
        return;
      }
      var newCount := row.failureCount + 1;
      if newCount >= row.threshold {
        row := row.(state := Open, failureCount := newCount, lastFailureAt := Some(now), openedAt := Some(now));
      } else {
        row := row.(failureCount := newCount, lastFailureAt := Some(now));
      }
    }

    method ResetCircuitBreaker()
      modifies this
      ensures row == Written(old(row), ToClosed)
    {
      row := row.(state := Closed, failureCount := 0, openedAt := None, lastFailureAt := None);
    }
  }

  // ---------------------------------------------------------------------
  // Atomic calls: the breaker refines one that only knows the history.
  // ---------------------------------------------------------------------

  datatype Event =
    | Check(now: int)
    | Success
    | Failure(now: int)
    | Reset

  function Fresh(enabled: bool, threshold: nat, recoveryTimeout: nat): Row {
    Row(enabled, threshold, recoveryTimeout, Closed, 0, None, None)
  }

  function Step(row: Row, e: Event): Row {
    Written(row, match e
                 case Check(now) => OnCheck(row, now)
                 case Success => OnSuccess(row)
                 case Failure(now) => OnFailure(row, now)
                 case Reset => ToClosed)
  }

  /** The row after calls from any row. */
  function AfterFrom(row: Row, es: seq<Event>): Row {
    if es == [] then row else Step(AfterFrom(row, es[..|es| - 1]), es[|es| - 1])
  }

  /** The row after calls from that of a new route with the breaker enabled. */
  function After(es: seq<Event>, threshold: nat, timeout: nat): Row {
    AfterFrom(Fresh(true, threshold, timeout), es)
  }

  /** Failures since the last success or reset. */
  function FailureRun(es: seq<Event>): nat {
    if es == [] then 0
    else match es[|es| - 1]
         case Failure(_) => FailureRun(es[..|es| - 1]) + 1
         case Check(_) => FailureRun(es[..|es| - 1])
         case _ => 0
  }

  function LastFailure(es: seq<Event>): Option<int> {
    if es == [] then None
    else if es[|es| - 1].Failure? then Some(es[|es| - 1].now)
    else LastFailure(es[..|es| - 1])
  }

  /** The abstract breaker: its state is decided by the failure run and the time of the last failure. */
  function Spec(es: seq<Event>, threshold: nat, timeout: nat): State {
    if es == [] then Closed else
    var before := Spec(es[..|es| - 1], threshold, timeout);
    match es[|es| - 1]
    case Reset => Closed
    case Success => if before == HalfOpen then Closed else before
    case Failure(_) => if before != Closed || FailureRun(es) == threshold then Open else Closed
    case Check(now) =>
      if before == Open && LastFailure(es).Some? && now - LastFailure(es).value >= timeout then HalfOpen else before
  }

  /** In CLOSED the row counts the failure run, below the threshold; otherwise it dates the last failure. */
  predicate Represents(row: Row, es: seq<Event>, threshold: nat) {
    && row.enabled && row.threshold == threshold
    && (row.state == Closed ==> row.failureCount == FailureRun(es) < threshold && row.openedAt == None)
    && (row.state != Closed ==> row.failureCount >= threshold && row.openedAt == LastFailure(es) && row.openedAt.Some?)
  }

  lemma {:induction false} Refines(es: seq<Event>, threshold: nat, timeout: nat)
    requires threshold >= 1
    ensures var row := After(es, threshold, timeout);
            && Represents(row, es, threshold)
            && row.recoveryTimeout == timeout && row.state == Spec(es, threshold, timeout)
    decreases |es|
  {
    if es != [] { Refines(es[..|es| - 1], threshold, timeout); }
  }

  /** A closed breaker opens on a failure exactly when that failure makes the run reach the threshold. */
  lemma TripsExactlyAtThreshold(es: seq<Event>, now: int, threshold: nat, timeout: nat)
    requires threshold >= 1 && After(es, threshold, timeout).state == Closed
    ensures FailureRun(es) < threshold
    ensures After(es + [Failure(now)], threshold, timeout).state == Open <==> FailureRun(es) + 1 == threshold
  {
    Refines(es, threshold, timeout);
    assert (es + [Failure(now)])[..|es|] == es;
  }

  /** A request is refused exactly when the breaker is open and the last failure is less than the timeout ago. */
  lemma RefusesIff(es: seq<Event>, now: int, threshold: nat, timeout: nat)
    requires threshold >= 1
    ensures !Admits(After(es, threshold, timeout), now) <==>
            && Spec(es, threshold, timeout) == Open
            && LastFailure(es).Some? && now < LastFailure(es).value + timeout
  {
    Refines(es, threshold, timeout);
  }

  /** A disabled breaker admits every request and changes nothing, whatever its state, until it is reset by hand. */
  lemma {:induction false} DisabledIsTransparent(row: Row, es: seq<Event>, now: int)
    requires !row.enabled && forall e | e in es :: !e.Reset?
    ensures AfterFrom(row, es) == row && Admits(row, now)
    decreases |es|
  {
    if es != [] {
      assert es[|es| - 1] in es;
      DisabledIsTransparent(row, es[..|es| - 1], now);
    }
  }

  /** HALF_OPEN refuses no request. */
  lemma HalfOpenRefusesNone(es: seq<Event>, now: int, threshold: nat, timeout: nat)
    requires threshold >= 1 && Spec(es, threshold, timeout) == HalfOpen
    ensures Admits(After(es, threshold, timeout), now)
  {
    RefusesIff(es, now, threshold, timeout);
  }

  /** How many of the checks in `later`, coming after `es`, are admitted. */
  function Admitted(es: seq<Event>, later: seq<Event>, threshold: nat, timeout: nat): nat {
    if later == [] then 0 else
    var init, last := later[..|later| - 1], later[|later| - 1];
    Admitted(es, init, threshold, timeout)
    + if last.Check? && Admits(After(es + init, threshold, timeout), last.now) then 1 else 0
  }

  /** Until a result is recorded, HALF_OPEN lets every request through and stays HALF_OPEN. */
  lemma {:induction false} HalfOpenAdmitsEvery(es: seq<Event>, checks: seq<Event>, threshold: nat, timeout: nat)
    requires threshold >= 1 && Spec(es, threshold, timeout) == HalfOpen && forall e | e in checks :: e.Check?
    ensures Spec(es + checks, threshold, timeout) == HalfOpen
    ensures Admitted(es, checks, threshold, timeout) == |checks|
    decreases |checks|
  {
    if checks == [] {
      assert es + checks == es;
    } else {
      var init, last := checks[..|checks| - 1], checks[|checks| - 1];
      assert last in checks;
      HalfOpenAdmitsEvery(es, init, threshold, timeout);
      HalfOpenRefusesNone(es + init, last.now, threshold, timeout);
      assert (es + checks)[..|es + checks| - 1] == es + init;
    }
  }

  /** So HALF_OPEN admits one request only exactly when only one comes before a result. */
  lemma HalfOpenAdmitsOneIff(es: seq<Event>, checks: seq<Event>, threshold: nat, timeout: nat)
    requires threshold >= 1 && Spec(es, threshold, timeout) == HalfOpen && forall e | e in checks :: e.Check?
    ensures Admitted(es, checks, threshold, timeout) <= 1 <==> |checks| <= 1
  {
    HalfOpenAdmitsEvery(es, checks, threshold, timeout);
  }

  /** Two requests at once: one failure opens the breaker, the timeout passes, and both are admitted in HALF_OPEN. */
  lemma TwoPassInHalfOpen(timeout: nat)
    ensures var half := [Failure(0), Check(timeout)];
            && Spec(half, 1, timeout) == HalfOpen
            && Admitted(half, [Check(timeout), Check(timeout)], 1, timeout) == 2
  {
    var half := [Failure(0), Check(timeout)];
    assert half[..1] == [Failure(0)] && half[..1][..0] == [];
    assert FailureRun([Failure(0)]) == 1 && Spec([Failure(0)], 1, timeout) == Open;
    assert LastFailure(half) == LastFailure(half[..1]) == Some(0);
    HalfOpenAdmitsEvery(half, [Check(timeout), Check(timeout)], 1, timeout);
  }

  /** No reset, no failure before `from`, and no check as late as `from` plus the timeout. */
  predicate WithinTimeout(es: seq<Event>, from: int, timeout: nat) {
    forall e | e in es ::
      !e.Reset? && (e.Failure? ==> e.now >= from) && (e.Check? ==> e.now < from + timeout)
  }

  /** Once a failure has opened the breaker it stays open, and refuses, for the whole recovery timeout. */
  lemma {:induction false} StaysShut(es: seq<Event>, at: int, later: seq<Event>, now: int, threshold: nat, timeout: nat)
    requires threshold >= 1 && After(es + [Failure(at)], threshold, timeout).state == Open
    requires WithinTimeout(later, at, timeout) && now < at + timeout
    ensures var row := After(es + [Failure(at)] + later, threshold, timeout);
            row.state == Open && row.openedAt.Some? && row.openedAt.value >= at && !Admits(row, now)
    decreases |later|
  {
    var opening := es + [Failure(at)];
    Refines(opening + later, threshold, timeout);
    if later == [] {
      assert opening + later == opening;
      assert LastFailure(opening) == Some(at);
    } else {
      var init := later[..|later| - 1];
      var last := later[|later| - 1];
      assert last in later;
      StaysShut(es, at, init, now, threshold, timeout);
      if last.Check? { StaysShut(es, at, init, last.now, threshold, timeout); }
      assert (opening + later)[..|opening + later| - 1] == opening + init;
    }
  }

  /** None of the requests that come meanwhile is admitted. */
  lemma {:induction false} NoneAdmittedWhileShut(es: seq<Event>, at: int, later: seq<Event>, threshold: nat,
                                                 timeout: nat)
    requires threshold >= 1 && After(es + [Failure(at)], threshold, timeout).state == Open
    requires WithinTimeout(later, at, timeout)
    ensures Admitted(es + [Failure(at)], later, threshold, timeout) == 0
    decreases |later|
  {
    if later != [] {
      var init, last := later[..|later| - 1], later[|later| - 1];
      assert last in later;
      NoneAdmittedWhileShut(es, at, init, threshold, timeout);
      if last.Check? { StaysShut(es, at, init, last.now, threshold, timeout); }
    }
  }

  // ---------------------------------------------------------------------
  // Interleaved calls: each reads the row, and writes from what it read later.
  // ---------------------------------------------------------------------

  datatype Kind = Checking | Succeeding | Failing

  datatype Call = Call(kind: Kind, read: Row)

  /** The row, the calls under way, and the version snapshots of the route, which hold the whole row. */
  datatype System = System(row: Row, calls: map<nat, Call>, versions: seq<Row>)

  datatype Action =
    | Begin(id: nat, kind: Kind)
    | Finish(id: nat, now: int)
    | AdminReset
    | Configure(enabled: bool, threshold: nat, recoveryTimeout: nat)
    | SaveVersion
    | RestoreVersion(version: nat)

  function Decide(c: Call, now: int): Update {
    match c.kind
    case Checking => OnCheck(c.read, now)
    case Succeeding => OnSuccess(c.read)
    case Failing => OnFailure(c.read, now)
  }

  predicate Enabled(s: System, a: Action) {
    match a
    case Begin(id, _) => id !in s.calls
    case Finish(id, _) => id in s.calls
    case RestoreVersion(version) => version < |s.versions|
    case _ => true
  }

  function Next(s: System, a: Action): System
    requires Enabled(s, a)
  {
    match a
    case Begin(id, kind) => s.(calls := s.calls[id := Call(kind, s.row)])
    case Finish(id, now) => s.(row := Written(s.row, Decide(s.calls[id], now)), calls := s.calls - {id})
    case AdminReset => s.(row := Written(s.row, ToClosed))
    case Configure(enabled, threshold, timeout) =>
      s.(row := s.row.(enabled := enabled, threshold := threshold, recoveryTimeout := timeout))
    case SaveVersion => s.(versions := s.versions + [s.row])
    case RestoreVersion(version) => s.(row := s.versions[version])
  }

  /** Resetting, configuring and saving a version are possible at any time, and change what they say. */
  lemma AdministrationIsFree(s: System, enabled: bool, threshold: nat, timeout: nat)
    ensures Enabled(s, AdminReset) && Next(s, AdminReset).row == Written(s.row, ToClosed)
    ensures var a := Configure(enabled, threshold, timeout);
            && Enabled(s, a)
            && Next(s, a).row == Row(enabled, threshold, timeout, s.row.state, s.row.failureCount, s.row.openedAt,
                                     s.row.lastFailureAt)
    ensures Enabled(s, SaveVersion) && Next(s, SaveVersion).versions == s.versions + [s.row]
  {
  }

  /**
   * A new route starts closed; a duplicated one starts with a copy of another route's row, which is
   * dated when open by the same invariant.
   */
  predicate IsRun(run: seq<System>, actions: seq<Action>) {
    && |run| == |actions| + 1
    && run[0].calls == map[] && run[0].versions == [] && OpenIsDated(run[0].row)
    && forall i | 0 <= i < |actions| :: Enabled(run[i], actions[i]) && run[i + 1] == Next(run[i], actions[i])
  }

  predicate OpenIsDated(row: Row) {
    row.state == Open ==> row.openedAt.Some?
  }

  /** The row, every copy a call has read and every version is dated when open. */
  predicate AllDated(s: System) {
    && OpenIsDated(s.row)
    && (forall id | id in s.calls :: OpenIsDated(s.calls[id].read))
    && (forall i | 0 <= i < |s.versions| :: OpenIsDated(s.versions[i]))
  }

  lemma StepKeepsDated(s: System, a: Action)
    requires Enabled(s, a) && AllDated(s)
    ensures AllDated(Next(s, a))
  {
    if a.Finish? { assert OpenIsDated(s.calls[a.id].read); }
  }

  /** However calls overlap and versions are restored, what is open is dated. */
  lemma {:induction false} OpenIsAlwaysDated(run: seq<System>, actions: seq<Action>, i: nat)
    requires IsRun(run, actions) && i < |run|
    ensures AllDated(run[i])
  {
    if i > 0 {
      OpenIsAlwaysDated(run, actions, i - 1);
      StepKeepsDated(run[i - 1], actions[i - 1]);
    }
  }

  /** So the check never takes the branch that recovers from an undated opening. */
  lemma UndatedOpeningNeverHappens(run: seq<System>, actions: seq<Action>, i: nat)
    requires IsRun(run, actions) && i < |actions| && actions[i].Finish? && run[i].calls[actions[i].id].kind == Checking
    ensures Decide(run[i].calls[actions[i].id], actions[i].now) != ToClosed
  {
    OpenIsAlwaysDated(run, actions, i);
    assert Enabled(run[i], actions[i]);
  }

  // ---------------------------------------------------------------------
  // Interleaved calls: when an opening lasts.
  // ---------------------------------------------------------------------

  predicate Continues(s: System, run: seq<System>, actions: seq<Action>) {
    && |run| == |actions| + 1 && run[0] == s
    && forall i | 0 <= i < |actions| :: Enabled(run[i], actions[i]) && run[i + 1] == Next(run[i], actions[i])
  }

  /** Calls of the proxy only, all of them finished at or after `opening` and before the timeout is over. */
  predicate InTime(a: Action, opening: int, timeout: nat) {
    a.Begin? || (a.Finish? && opening <= a.now < opening + timeout)
  }

  predicate AllInTime(actions: seq<Action>, opening: int, timeout: nat) {
    forall i | 0 <= i < |actions| :: InTime(actions[i], opening, timeout)
  }

  /** The breaker is open since `opening` or later. */
  predicate Shut(row: Row, opening: int, timeout: nat) {
    && row.enabled && row.state == Open && row.recoveryTimeout == timeout
    && row.openedAt.Some? && row.openedAt.value >= opening
  }

  lemma ShutRefuses(row: Row, opening: int, timeout: nat, now: int)
    requires Shut(row, opening, timeout) && now < opening + timeout
    ensures !Admits(row, now)
  {
  }

  /**
   * A call under way that can still end the opening in time: a success that read HALF_OPEN, or a check
   * that read an opening whose timeout is over sooner.
   */
  predicate CanEnd(c: Call, opening: int, timeout: nat) {
    && timeout > 0 && c.read.enabled
    && match c.kind
       case Succeeding => c.read.state == HalfOpen
       case Checking =>
         && c.read.state == Open
         && (c.read.openedAt.None? || c.read.openedAt.value + c.read.recoveryTimeout < opening + timeout)
       case Failing => false
  }

  predicate NoneCanEnd(s: System, opening: int, timeout: nat) {
    forall id | id in s.calls :: !CanEnd(s.calls[id], opening, timeout)
  }

  lemma StepStaysShut(s: System, a: Action, opening: int, timeout: nat)
    requires Enabled(s, a) && InTime(a, opening, timeout)
    requires Shut(s.row, opening, timeout) && NoneCanEnd(s, opening, timeout)
    ensures Shut(Next(s, a).row, opening, timeout) && NoneCanEnd(Next(s, a), opening, timeout)
  {
    if a.Finish? { assert !CanEnd(s.calls[a.id], opening, timeout); }
  }

  lemma {:induction false} RunStaysShut(s: System, run: seq<System>, actions: seq<Action>, i: nat, opening: int,
                                        timeout: nat)
    requires Continues(s, run, actions) && AllInTime(actions, opening, timeout) && i < |run|
    requires Shut(s.row, opening, timeout) && NoneCanEnd(s, opening, timeout)
    ensures Shut(run[i].row, opening, timeout) && NoneCanEnd(run[i], opening, timeout)
  {
    if i > 0 {
      RunStaysShut(s, run, actions, i - 1, opening, timeout);
      StepStaysShut(run[i - 1], actions[i - 1], opening, timeout);
    }
  }

  /** The breaker stays open, and so refuses, through every continuation in time. */
  ghost predicate Lasts(s: System, opening: int, timeout: nat) {
    forall run: seq<System>, actions | Continues(s, run, actions) && AllInTime(actions, opening, timeout) ::
      Shut(run[|actions|].row, opening, timeout)
  }

  lemma EndedByCall(s: System, id: nat, opening: int, timeout: nat)
    requires Shut(s.row, opening, timeout) && id in s.calls && CanEnd(s.calls[id], opening, timeout)
    ensures !Lasts(s, opening, timeout)
  {
    var read := s.calls[id].read;
    var due := if read.openedAt.Some? then read.openedAt.value + read.recoveryTimeout else opening;
    var a := Finish(id, if s.calls[id].kind == Checking && due > opening then due else opening);
    var run, actions := [s, Next(s, a)], [a];
    assert Continues(s, run, actions) && AllInTime(actions, opening, timeout);
    assert !Shut(run[|actions|].row, opening, timeout);
  }

  /**
   * With calls overlapping at will, an opening lasts the whole recovery timeout exactly when no call
   * under way can still end it from what it read before.
   */
  lemma OpeningLastsIff(s: System, opening: int, timeout: nat)
    requires Shut(s.row, opening, timeout)
    ensures Lasts(s, opening, timeout) <==> NoneCanEnd(s, opening, timeout)
  {
    if NoneCanEnd(s, opening, timeout) {
      forall run: seq<System>, actions | Continues(s, run, actions) && AllInTime(actions, opening, timeout)
        ensures Shut(run[|actions|].row, opening, timeout)
      {
        RunStaysShut(s, run, actions, |actions|, opening, timeout);
      }
    } else {
      var id :| id in s.calls && CanEnd(s.calls[id], opening, timeout);
      EndedByCall(s, id, opening, timeout);
    }
  }

  // ----- Two calls side by side -----

  /** Calls 0 and 1 both read before either writes; call 0 writes first. */
  function SideBySide(zero: Kind, one: Kind, at: int): seq<Action> {
    [Begin(0, zero), Begin(1, one), Finish(0, at), Finish(1, at)]
  }

  predicate Moves(s: System, a: Action, s': System) {
    Enabled(s, a) && s' == Next(s, a)
  }

  lemma BothWritten(row: Row, p: Call, q: Call, at: int)
    ensures var first := Written(row, Decide(p, at));
            && Moves(System(row, map[0 := p, 1 := q], []), Finish(0, at), System(first, map[1 := q], []))
            && Moves(System(first, map[1 := q], []), Finish(1, at), System(Written(first, Decide(q, at)), map[], []))
  {
    var both: map<nat, Call>, last: map<nat, Call> := map[0 := p, 1 := q], map[1 := q];
    assert both - {0} == last && last - {1} == map[];
  }

  /** From no call under way: both write from the row they read. */
  lemma SideBySideRuns(row: Row, zero: Kind, one: Kind, at: int) returns (run: seq<System>)
    ensures Continues(System(row, map[], []), run, SideBySide(zero, one, at))
    ensures run[3].row == Written(row, Decide(Call(zero, row), at))
    ensures run[4].row == Written(run[3].row, Decide(Call(one, row), at))
  {
    var p, q := Call(zero, row), Call(one, row);
    var first := Written(row, Decide(p, at));
    BothWritten(row, p, q, at);
    run := [System(row, map[], []), System(row, map[0 := p], []), System(row, map[0 := p, 1 := q], []),
            System(first, map[1 := q], []), System(Written(first, Decide(q, at)), map[], [])];
    var actions := SideBySide(zero, one, at);
    assert forall i | 0 <= i < |actions| :: Moves(run[i], actions[i], run[i + 1]);
  }

  /**
   * A success and a failure side by side in HALF_OPEN: the failure opens the breaker, the success
   * closes it at once.
   */
  lemma OverlappingSuccessCloses(row: Row, at: int) returns (run: seq<System>)
    requires row.enabled && row.state == HalfOpen
    ensures Continues(System(row, map[], []), run, SideBySide(Failing, Succeeding, at))
    ensures run[3].row.state == Open && run[3].row.openedAt == Some(at) && run[4].row.state == Closed
  {
    run := SideBySideRuns(row, Failing, Succeeding, at);
  }

  /** Two failures side by side count as one; one after the other they count as two. */
  lemma FailureIsLost(row: Row, at: int) returns (run: seq<System>)
    requires row.enabled && row.state == Closed && row.failureCount + 1 < row.threshold
    ensures Continues(System(row, map[], []), run, SideBySide(Failing, Failing, at))
    ensures run[4].row.state == Closed && run[4].row.failureCount == row.failureCount + 1
    ensures Step(Step(row, Failure(at)), Failure(at)).failureCount == row.failureCount + 2
  {
    run := SideBySideRuns(row, Failing, Failing, at);
  }

  // ---------------------------------------------------------------------
  // Interleaved calls: how many failures open the breaker.
  // ---------------------------------------------------------------------

  /** At most `m` calls are under way: they have the numbers below `m`. */
  predicate UnderWay(s: System, m: nat) {
    forall id | id in s.calls :: id < m
  }

  /** Call `id` is under way and will write a failure. */
  predicate WillFail(s: System, id: nat) {
    id in s.calls && s.calls[id].kind == Failing && s.calls[id].read.enabled
  }

  predicate FailWrite(s: System, a: Action) {
    a.Finish? && WillFail(s, a.id)
  }

  predicate OpenWrite(s: System, a: Action) {
    FailWrite(s, a) && Decide(s.calls[a.id], a.now).ToOpen?
  }

  /** The action may take failures back: a success, a reset, or a version restored. */
  predicate Forgets(s: System, a: Action) {
    || a.AdminReset? || a.RestoreVersion?
    || (a.Finish? && a.id in s.calls && var u := Decide(s.calls[a.id], a.now); u.ToClosed? || u.ClearCount?)
  }

  predicate AtMost(a: Action, limit: nat) {
    a.Configure? ==> a.threshold <= limit
  }

  /** The row and the calls that will write a failure know no threshold above `limit`. */
  predicate Limited(s: System, limit: nat) {
    && s.row.threshold <= limit
    && forall id | id in s.calls && WillFail(s, id) :: s.calls[id].read.threshold <= limit
  }

  lemma StaysLimited(s: System, a: Action, limit: nat)
    requires Enabled(s, a) && Limited(s, limit) && !Forgets(s, a) && AtMost(a, limit)
    ensures Limited(Next(s, a), limit)
  {
  }

  /** Failures that open a breaker whose counter stands at `count`: one at least. */
  function Left(limit: nat, count: nat): nat {
    if count < limit then limit - count else 1
  }

  /** The count that slot `i` writes back one further: what its call read, or what a new one would read. */
  function CountOf(s: System, i: nat): nat {
    (if WillFail(s, i) then s.calls[i].read else s.row).failureCount
  }

  function FailSlot(s: System, m: nat, limit: nat, i: nat): nat {
    Budget(m, Left(limit, CountOf(s, i)))
  }

  function FailBudget(s: System, m: nat, limit: nat): nat {
    Total(m, i => FailSlot(s, m, limit, i))
  }

  lemma OtherStepKeepsBudget(s: System, a: Action, m: nat, limit: nat)
    requires Enabled(s, a) && !FailWrite(s, a) && !Forgets(s, a)
    ensures FailBudget(Next(s, a), m, limit) <= FailBudget(s, m, limit)
  {
    TotalSame(m, i => FailSlot(s, m, limit, i), i => FailSlot(Next(s, a), m, limit, i));
  }

  lemma FailWritePays(s: System, a: Action, m: nat, limit: nat)
    requires Enabled(s, a) && FailWrite(s, a) && !OpenWrite(s, a) && Limited(s, limit) && a.id < m
    ensures FailBudget(Next(s, a), m, limit) + 1 <= FailBudget(s, m, limit)
  {
    var next, count := Next(s, a), s.calls[a.id].read.failureCount;
    var gain := Budget(m, Left(limit, count + 1));
    assert Left(limit, count) == Left(limit, count + 1) + 1;
    TotalFalls(m, i => FailSlot(s, m, limit, i), i => FailSlot(next, m, limit, i), a.id, gain);
  }

  lemma LastWritePays(s: System, a: Action, m: nat, limit: nat)
    requires FailWrite(s, a) && a.id < m
    ensures 1 <= FailBudget(s, m, limit)
  {
    TotalLeast(m, i => FailSlot(s, m, limit, i), a.id);
  }

  /** Failing writes of a run. */
  function Failures(run: seq<System>, actions: seq<Action>): nat
    requires |run| == |actions| + 1
  {
    if actions == [] then 0
    else (if FailWrite(run[0], actions[0]) then 1 else 0) + Failures(run[1..], actions[1..])
  }

  /** No failure is taken back, none but the last action opens, and at most `m` calls are under way. */
  predicate UpToAnOpening(run: seq<System>, actions: seq<Action>, m: nat, limit: nat)
    requires |run| == |actions| + 1
  {
    && (forall i | 0 <= i < |run| :: UnderWay(run[i], m))
    && (forall i | 0 <= i < |actions| :: !Forgets(run[i], actions[i]) && AtMost(actions[i], limit))
    && (forall i | 0 <= i < |actions| - 1 :: !OpenWrite(run[i], actions[i]))
  }

  lemma RestUpToAnOpening(s: System, run: seq<System>, actions: seq<Action>, m: nat, limit: nat)
    requires Continues(s, run, actions) && UpToAnOpening(run, actions, m, limit) && actions != []
    ensures Enabled(s, actions[0]) && run[1] == Next(s, actions[0]) && UnderWay(s, m)
    ensures !Forgets(s, actions[0]) && AtMost(actions[0], limit) && (|actions| > 1 ==> !OpenWrite(s, actions[0]))
    ensures Continues(run[1], run[1..], actions[1..]) && UpToAnOpening(run[1..], actions[1..], m, limit)
  {
    var rest, more := run[1..], actions[1..];
    assert UnderWay(run[0], m) && !Forgets(run[0], actions[0]);
    assert forall i | 0 <= i < |rest| :: rest[i] == run[i + 1];
    assert forall i | 0 <= i < |more| :: more[i] == actions[i + 1];
  }

  lemma {:induction false} FailuresWithinBudget(s: System, run: seq<System>, actions: seq<Action>, m: nat, limit: nat)
    requires Continues(s, run, actions) && UpToAnOpening(run, actions, m, limit) && Limited(s, limit)
    ensures Failures(run, actions) <= FailBudget(s, m, limit)
    decreases |actions|
  {
    if actions != [] {
      var a := actions[0];
      RestUpToAnOpening(s, run, actions, m, limit);
      if |actions| == 1 {
        assert actions[1..] == [];
        if FailWrite(s, a) { LastWritePays(s, a, m, limit); }
      } else {
        StaysLimited(s, a, limit);
        FailuresWithinBudget(run[1], run[1..], actions[1..], m, limit);
        if FailWrite(s, a) { FailWritePays(s, a, m, limit); } else { OtherStepKeepsBudget(s, a, m, limit); }
      }
    }
  }

  /**
   * With at most `m` calls under way, and thresholds of at most `limit`, a stretch without a success
   * holds at most m + m^2 + ... + m^limit failures up to and with the one that opens the breaker.
   */
  lemma FailuresBeforeAnOpening(s: System, run: seq<System>, actions: seq<Action>, m: nat, limit: nat)
    requires Continues(s, run, actions) && UpToAnOpening(run, actions, m, limit) && Limited(s, limit) && limit > 0
    ensures Failures(run, actions) <= m * Budget(m, limit)
  {
    FailuresWithinBudget(s, run, actions, m, limit);
    forall i | 0 <= i < m ensures FailSlot(s, m, limit, i) <= Budget(m, limit) {
      BudgetGrows(m, Left(limit, CountOf(s, i)), limit);
    }
    TotalAtMost(m, i => FailSlot(s, m, limit, i), Budget(m, limit));
  }

  /** One call at a time, the breaker opens by its threshold at the latest. */
  lemma FailuresWithoutOverlap(s: System, run: seq<System>, actions: seq<Action>, limit: nat)
    requires Continues(s, run, actions) && UpToAnOpening(run, actions, 1, limit) && Limited(s, limit) && limit > 0
    ensures Failures(run, actions) <= limit
  {
    FailuresBeforeAnOpening(s, run, actions, 1, limit);
    BudgetOfOne(limit);
  }

  /** Failing calls one after the other. */
  function OneByOne(n: nat, at: int): (actions: seq<Action>)
    ensures |actions| == 2 * n
  {
    if n == 0 then [] else [Begin(0, Failing)] + ([Finish(0, at)] + OneByOne(n - 1, at))
  }

  /** A run that goes on as said, with one action more at its start. */
  lemma OneActionBefore(s: System, a: Action, run: seq<System>, actions: seq<Action>, limit: nat)
    requires run != [] && Moves(s, a, run[0]) && Continues(run[0], run, actions)
    requires UpToAnOpening(run, actions, 1, limit) && UnderWay(s, 1) && !Forgets(s, a) && AtMost(a, limit)
    requires actions != [] ==> !OpenWrite(s, a)
    ensures Continues(s, [s] + run, [a] + actions) && UpToAnOpening([s] + run, [a] + actions, 1, limit)
    ensures Failures([s] + run, [a] + actions) == (if FailWrite(s, a) then 1 else 0) + Failures(run, actions)
  {
    var longer, more := [s] + run, [a] + actions;
    assert longer[1..] == run && more[1..] == actions;
    assert forall i | 0 < i < |longer| :: longer[i] == run[i - 1];
    assert forall i | 0 < i < |more| :: more[i] == actions[i - 1];
  }

  function Idle(row: Row): System {
    System(row, map[], [])
  }

  function Busy(row: Row): System {
    System(row, map[0 := Call(Failing, row)], [])
  }

  lemma FailsAlone(row: Row, at: int)
    requires row.enabled && row.state == Closed && row.failureCount < row.threshold
    ensures Moves(Idle(row), Begin(0, Failing), Busy(row)) && UnderWay(Idle(row), 1)
    ensures var failed := Written(row, OnFailure(row, at));
            && Moves(Busy(row), Finish(0, at), Idle(failed)) && UnderWay(Busy(row), 1)
            && FailWrite(Busy(row), Finish(0, at)) && !Forgets(Busy(row), Finish(0, at))
            && (OpenWrite(Busy(row), Finish(0, at)) <==> row.failureCount + 1 == row.threshold)
            && failed.enabled && failed.threshold == row.threshold && failed.failureCount == row.failureCount + 1
            && failed.state == if row.failureCount + 1 == row.threshold then Open else Closed
  {
    assert Busy(row).calls - {0} == map[];
  }

  /** One call at a time, it takes as many failures as are missing from the threshold to open the breaker. */
  lemma {:induction false} ThresholdIsReached(row: Row, n: nat, at: int) returns (run: seq<System>)
    requires n > 0 ==> row.enabled && row.state == Closed && row.failureCount + n == row.threshold
    ensures Continues(Idle(row), run, OneByOne(n, at)) && UpToAnOpening(run, OneByOne(n, at), 1, row.threshold)
    ensures Failures(run, OneByOne(n, at)) == n
    ensures n > 0 ==> run[2 * n].row.state == Open
    decreases n
  {
    if n == 0 {
      run := [Idle(row)];
    } else {
      FailsAlone(row, at);
      var failed, more := Written(row, OnFailure(row, at)), OneByOne(n - 1, at);
      var rest := ThresholdIsReached(failed, n - 1, at);
      OneActionBefore(Busy(row), Finish(0, at), rest, more, row.threshold);
      OneActionBefore(Idle(row), Begin(0, Failing), [Busy(row)] + rest, [Finish(0, at)] + more, row.threshold);
      run := [Idle(row)] + ([Busy(row)] + rest);
      assert run[2 * n] == rest[2 * (n - 1)];
    }
  }
}
