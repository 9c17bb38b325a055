/** Two-factor logins that overlap: each reads the challenge, reads the user, and writes from what it read. */
module TwoFactorOverlap {
  import opened LostUpdates
  import opened Options
  import opened TwoFactor

  /** A login under way: its nonce was accepted, or its result is decided and not yet written. */
  datatype Pending =
    | Checked(nonce: Nonce)
    | Succeeding(nonce: Nonce, codes: seq<Hash>)
    | Failing(nonce: Nonce, attempts: nat)

  datatype System = System(user: User, calls: map<nat, Pending>)

  datatype Action =
    | Issue(nonce: Nonce)
    | CheckNonce(call: nat, presented: Nonce)
    | ReadUser(call: nat, token: Token, totpValid: bool, now: int)
    | WriteResult(call: nat, now: int)
    | TurnOn(codes: seq<Hash>)
    | TurnOff

  predicate Enabled(s: System, a: Action) {
    match a
    case CheckNonce(call, presented) => call !in s.calls && s.user.challenge == Some(presented)
    case ReadUser(call, _, _, _) => call in s.calls && s.calls[call].Checked?
    case WriteResult(call, _) => call in s.calls && !s.calls[call].Checked?
    case TurnOn(_) => !s.user.enabled
    case TurnOff => s.user.enabled
    case Issue(_) => true
  }

  /** What `verifyToken` decides from the row `u`, if it gets that far. */
  function Decide(u: User, nonce: Nonce, token: Token, totpValid: bool, now: int, compare: Compare): Option<Pending> {
    if !u.enabled || Locked(u, now) then None
    else if totpValid then Some(Succeeding(nonce, u.recoveryCodes))
    else match FirstCode(token, u.recoveryCodes, compare)
         case Some(i) => Some(Succeeding(nonce, RemoveAt(u.recoveryCodes, i)))
         case None => Some(Failing(nonce, u.failedAttempts))
  }

  function Written(u: User, p: Pending, now: int): User
    requires !p.Checked?
  {
    match p
    case Succeeding(_, codes) => OnSuccess(u, codes)
    case Failing(_, attempts) => OnFailure(u.(failedAttempts := attempts), now)
  }

  function Next(s: System, a: Action, compare: Compare): System
    requires Enabled(s, a)
  {
    match a
    case Issue(nonce) => s.(user := s.user.(challenge := Some(nonce)))
    case CheckNonce(call, presented) => s.(calls := s.calls[call := Checked(presented)])
    case ReadUser(call, token, totpValid, now) =>
      var decided := Decide(s.user, s.calls[call].nonce, token, totpValid, now, compare);
      s.(calls := if decided.Some? then s.calls[call := decided.value] else s.calls - {call})
    case WriteResult(call, now) => System(Written(s.user, s.calls[call], now), s.calls - {call})
    case TurnOn(codes) => s.(user := s.user.(enabled := true, recoveryCodes := codes))
    case TurnOff => s.(user := s.user.(enabled := false, recoveryCodes := []))
  }

  /** Alone, the three steps of a login are the verification that `TwoFactor` takes as one. */
  lemma AloneIsAtomic(s: System, call: nat, nonce: Nonce, token: Token, totpValid: bool, now: int, compare: Compare)
    requires Enabled(s, CheckNonce(call, nonce))
    ensures var checked := Next(s, CheckNonce(call, nonce), compare);
            var decided := Next(checked, ReadUser(call, token, totpValid, now), compare);
            var after := if call in decided.calls then Next(decided, WriteResult(call, now), compare) else decided;
            after == System(Step(s.user, Attempt(nonce, token, totpValid, now), compare).0, s.calls)
  {
    var checked := Next(s, CheckNonce(call, nonce), compare);
    var pending := Decide(s.user, nonce, token, totpValid, now, compare);
    assert checked.calls - {call} == s.calls;
    if pending.Some? {
      assert checked.calls[call := pending.value] - {call} == s.calls;
      assert s.user.(failedAttempts := s.user.failedAttempts) == s.user;
    }
  }

  /** Issuing a challenge, enabling and disabling are the steps that `TwoFactor` has for them. */
  lemma OtherActionsAreAtomic(s: System, nonce: Nonce, codes: seq<Hash>, compare: Compare)
    ensures Enabled(s, Issue(nonce))
            && Next(s, Issue(nonce), compare) == System(Step(s.user, Login(nonce), compare).0, s.calls)
    ensures if s.user.enabled
            then Enabled(s, TurnOff) && Next(s, TurnOff, compare) == System(Step(s.user, Disable, compare).0, s.calls)
            else Enabled(s, TurnOn(codes))
                 && Next(s, TurnOn(codes), compare) == System(Step(s.user, Enable(codes), compare).0, s.calls)
  {
  }

  // ---------------------------------------------------------------------
  // When a nonce is spent.
  // ---------------------------------------------------------------------

  predicate Continues(s: System, run: seq<System>, actions: seq<Action>, compare: Compare) {
    && |run| == |actions| + 1 && run[0] == s
    && forall i | 0 <= i < |actions| :: Enabled(run[i], actions[i]) && run[i + 1] == Next(run[i], actions[i], compare)
  }

  /** The action opens a session for `nonce`. */
  predicate Opens(s: System, a: Action, nonce: Nonce) {
    a.WriteResult? && a.call in s.calls && s.calls[a.call].Succeeding? && s.calls[a.call].nonce == nonce
  }

  /** The nonce can still be presented, or a login that presented it can still succeed. */
  predicate Live(s: System, nonce: Nonce) {
    || s.user.challenge == Some(nonce)
    || exists call | call in s.calls :: s.calls[call].nonce == nonce && !s.calls[call].Failing?
  }

  lemma StaysSpent(s: System, a: Action, nonce: Nonce, compare: Compare)
    requires Enabled(s, a) && !Live(s, nonce) && a != Issue(nonce)
    ensures !Live(Next(s, a, compare), nonce) && !Opens(s, a, nonce)
  {
    var next := Next(s, a, compare);
    forall call | call in next.calls
      ensures !(next.calls[call].nonce == nonce && !next.calls[call].Failing?)
    {
      if call in s.calls { assert !(s.calls[call].nonce == nonce && !s.calls[call].Failing?); }
    }
  }

  lemma {:induction false} SpentForever(s: System, run: seq<System>, actions: seq<Action>, i: nat, nonce: Nonce,
                                        compare: Compare)
    requires Continues(s, run, actions, compare) && Issue(nonce) !in actions && !Live(s, nonce) && i < |run|
    ensures !Live(run[i], nonce)
  {
    if i > 0 {
      SpentForever(s, run, actions, i - 1, nonce, compare);
      assert actions[i - 1] in actions;
      StaysSpent(run[i - 1], actions[i - 1], nonce, compare);
    }
  }

  /** A run from `s`, in which the nonce is not issued again, whose last action opens a session for it. */
  predicate EndsInSession(s: System, run: seq<System>, actions: seq<Action>, nonce: Nonce, compare: Compare) {
    && Continues(s, run, actions, compare) && Issue(nonce) !in actions
    && actions != [] && Opens(run[|actions| - 1], actions[|actions| - 1], nonce)
  }

  ghost predicate CanStillOpen(s: System, nonce: Nonce, compare: Compare) {
    exists run, actions :: EndsInSession(s, run, actions, nonce, compare)
  }

  lemma SpentNeverOpens(s: System, run: seq<System>, actions: seq<Action>, nonce: Nonce, compare: Compare)
    requires !Live(s, nonce)
    ensures !EndsInSession(s, run, actions, nonce, compare)
  {
    if Continues(s, run, actions, compare) && Issue(nonce) !in actions && actions != [] {
      var last := |actions| - 1;
      SpentForever(s, run, actions, last, nonce, compare);
      assert actions[last] in actions;
      StaysSpent(run[last], actions[last], nonce, compare);
    }
  }

  /** One action more at the start. */
  lemma OpensAfter(s: System, a: Action, nonce: Nonce, compare: Compare)
    requires Enabled(s, a) && a != Issue(nonce) && CanStillOpen(Next(s, a, compare), nonce, compare)
    ensures CanStillOpen(s, nonce, compare)
  {
    var next := Next(s, a, compare);
    var run, actions :| EndsInSession(next, run, actions, nonce, compare);
    var run', actions' := [s] + run, [a] + actions;
    assert forall i | 0 < i < |run'| :: run'[i] == run[i - 1];
    assert forall i | 0 < i < |actions'| :: actions'[i] == actions[i - 1];
    assert EndsInSession(s, run', actions', nonce, compare);
  }

  lemma SucceedingOpens(s: System, call: nat, nonce: Nonce, compare: Compare)
    requires call in s.calls && s.calls[call].Succeeding? && s.calls[call].nonce == nonce
    ensures CanStillOpen(s, nonce, compare)
  {
    var a := WriteResult(call, 0);
    assert EndsInSession(s, [s, Next(s, a, compare)], [a], nonce, compare);
  }

  lemma CheckedOpens(s: System, call: nat, nonce: Nonce, compare: Compare)
    requires call in s.calls && s.calls[call] == Checked(nonce)
    ensures CanStillOpen(s, nonce, compare)
    decreases if s.user.enabled then 0 else 1
  {
    if !s.user.enabled {
      var on := Next(s, TurnOn([]), compare);
      CheckedOpens(on, call, nonce, compare);
      OpensAfter(s, TurnOn([]), nonce, compare);
    } else {
      var now := if s.user.lockedUntil.Some? then s.user.lockedUntil.value else 0;
      var a := ReadUser(call, "", true, now);
      SucceedingOpens(Next(s, a, compare), call, nonce, compare);
      OpensAfter(s, a, nonce, compare);
    }
  }

  /** A number above all of a set. */
  lemma {:induction false} Above(calls: set<nat>) returns (call: nat)
    ensures forall c | c in calls :: c < call
    decreases |calls|
  {
    if calls == {} {
      call := 0;
    } else {
      var c :| c in calls;
      var rest := Above(calls - {c});
      call := if c < rest then rest else c + 1;
      assert forall x | x in calls :: x == c || x in calls - {c};
    }
  }

  /**
   * However logins overlap, a nonce can open another session exactly while it is still the stored
   * challenge or some login that presented it has not failed yet.
   */
  lemma NonceIsSpentIff(s: System, nonce: Nonce, compare: Compare)
    ensures !CanStillOpen(s, nonce, compare) <==> !Live(s, nonce)
  {
    if !Live(s, nonce) {
      forall run, actions ensures !EndsInSession(s, run, actions, nonce, compare) {
        SpentNeverOpens(s, run, actions, nonce, compare);
      }
    } else if call :| call in s.calls && s.calls[call].nonce == nonce && !s.calls[call].Failing? {
      if s.calls[call].Checked? {
        CheckedOpens(s, call, nonce, compare);
      } else {
        SucceedingOpens(s, call, nonce, compare);
      }
    } else {
      var call := Above(s.calls.Keys);
      var a := CheckNonce(call, nonce);
      CheckedOpens(Next(s, a, compare), call, nonce, compare);
      OpensAfter(s, a, nonce, compare);
    }
  }

  /**
   * After a session was opened, the nonce is spent exactly when no other login that presented it is
   * still under way.
   */
  lemma SpentAfterSessionIff(s: System, call: nat, now: int, compare: Compare)
    requires call in s.calls && s.calls[call].Succeeding?
    ensures var nonce := s.calls[call].nonce;
            !CanStillOpen(Next(s, WriteResult(call, now), compare), nonce, compare) <==>
            forall other | other in s.calls && other != call ::
              s.calls[other].nonce == nonce ==> s.calls[other].Failing?
  {
    var nonce, next := s.calls[call].nonce, Next(s, WriteResult(call, now), compare);
    NonceIsSpentIff(next, nonce, compare);
    assert next.user.challenge == None;
    assert forall other :: other in next.calls <==> other in s.calls && other != call;
  }

  // ----- Two logins side by side -----

  /** What is presented as the second factor. */
  datatype Factor = Factor(token: Token, totpValid: bool)

  /** Logins 0 and 1 both read before either writes; login 0 writes first. */
  function SideBySide(nonce: Nonce, zero: Factor, one: Factor, now: int): seq<Action> {
    [CheckNonce(0, nonce), CheckNonce(1, nonce),
     ReadUser(0, zero.token, zero.totpValid, now), ReadUser(1, one.token, one.totpValid, now),
     WriteResult(0, now), WriteResult(1, now)]
  }

  predicate Moves(s: System, a: Action, s': System, compare: Compare) {
    Enabled(s, a) && s' == Next(s, a, compare)
  }

  lemma BothChecked(u: User, nonce: Nonce, compare: Compare)
    requires u.challenge == Some(nonce)
    ensures var one := System(u, map[0 := Checked(nonce)]);
            && Moves(System(u, map[]), CheckNonce(0, nonce), one, compare)
            && Moves(one, CheckNonce(1, nonce), System(u, map[0 := Checked(nonce), 1 := Checked(nonce)]), compare)
  {
  }

  lemma BothRead(u: User, nonce: Nonce, zero: Factor, one: Factor, now: int, p: Pending, q: Pending, compare: Compare)
    requires Decide(u, nonce, zero.token, zero.totpValid, now, compare) == Some(p)
    requires Decide(u, nonce, one.token, one.totpValid, now, compare) == Some(q)
    ensures var checked, half := System(u, map[0 := Checked(nonce), 1 := Checked(nonce)]),
                                 System(u, map[0 := p, 1 := Checked(nonce)]);
            && Moves(checked, ReadUser(0, zero.token, zero.totpValid, now), half, compare)
            && Moves(half, ReadUser(1, one.token, one.totpValid, now), System(u, map[0 := p, 1 := q]), compare)
  {
  }

  lemma BothWritten(u: User, p: Pending, q: Pending, now: int, compare: Compare)
    requires !p.Checked? && !q.Checked?
    ensures var first := Written(u, p, now);
            && Moves(System(u, map[0 := p, 1 := q]), WriteResult(0, now), System(first, map[1 := q]), compare)
            && Moves(System(first, map[1 := q]), WriteResult(1, now), System(Written(first, q, now), map[]), compare)
  {
    var both: map<nat, Pending>, last: map<nat, Pending> := map[0 := p, 1 := q], map[1 := q];
    assert both - {0} == last && last - {1} == map[];
  }

  /** From no login under way, with `p` and `q` what the two decide: both write from the row they read. */
  lemma SideBySideRuns(u: User, nonce: Nonce, zero: Factor, one: Factor, now: int, p: Pending, q: Pending,
                       compare: Compare) returns (run: seq<System>)
    requires u.challenge == Some(nonce)
    requires Decide(u, nonce, zero.token, zero.totpValid, now, compare) == Some(p)
    requires Decide(u, nonce, one.token, one.totpValid, now, compare) == Some(q)
    ensures !p.Checked? && !q.Checked?
    ensures Continues(System(u, map[]), run, SideBySide(nonce, zero, one, now), compare)
    ensures run[4] == System(u, map[0 := p, 1 := q])
    ensures run[5] == System(Written(u, p, now), map[1 := q])
    ensures run[6] == System(Written(Written(u, p, now), q, now), map[])
  {
    BothChecked(u, nonce, compare);
    BothRead(u, nonce, zero, one, now, p, q, compare);
    BothWritten(u, p, q, now, compare);
    run := [System(u, map[]), System(u, map[0 := Checked(nonce)]),
            System(u, map[0 := Checked(nonce), 1 := Checked(nonce)]), System(u, map[0 := p, 1 := Checked(nonce)]),
            System(u, map[0 := p, 1 := q]), System(Written(u, p, now), map[1 := q]),
            System(Written(Written(u, p, now), q, now), map[])];
    var actions := SideBySide(nonce, zero, one, now);
    assert forall i | 0 <= i < |actions| :: Moves(run[i], actions[i], run[i + 1], compare);
  }

  /** Two logins with one nonce, side by side: both open a session. */
  lemma OverlappingLoginsBothPass(u: User, nonce: Nonce, now: int, compare: Compare) returns (run: seq<System>)
    requires u.enabled && !Locked(u, now) && u.challenge == Some(nonce)
    ensures var totp := Factor("", true);
            Continues(System(u, map[]), run, SideBySide(nonce, totp, totp, now), compare)
    ensures Opens(run[4], WriteResult(0, now), nonce) && Opens(run[5], WriteResult(1, now), nonce)
  {
    var totp, passed := Factor("", true), Succeeding(nonce, u.recoveryCodes);
    run := SideBySideRuns(u, nonce, totp, totp, now, passed, passed, compare);
  }

  // ---------------------------------------------------------------------
  // What overlap does to the counter and to the codes.
  // ---------------------------------------------------------------------

  /** Two failures side by side count as one. */
  lemma FailureIsLost(u: User, nonce: Nonce, wrong: Token, now: int, compare: Compare) returns (run: seq<System>)
    requires u.enabled && !Locked(u, now) && u.challenge == Some(nonce) && u.failedAttempts == 0
    requires forall code | code in u.recoveryCodes :: !compare(wrong, code)
    ensures var factor := Factor(wrong, false);
            Continues(System(u, map[]), run, SideBySide(nonce, factor, factor, now), compare)
    ensures run[4].calls == map[0 := Failing(nonce, 0), 1 := Failing(nonce, 0)] && run[6].user.failedAttempts == 1
  {
    var factor, failed := Factor(wrong, false), Failing(nonce, 0);
    assert FirstCode(wrong, u.recoveryCodes, compare) == None;
    run := SideBySideRuns(u, nonce, factor, factor, now, failed, failed, compare);
  }

  /** A login by TOTP that reads before and writes last brings back a recovery code that was spent meanwhile. */
  lemma CodeComesBack(u: User, nonce: Nonce, token: Token, code: Hash, now: int, compare: Compare)
    returns (run: seq<System>)
    requires u.enabled && !Locked(u, now) && u.challenge == Some(nonce)
    requires u.recoveryCodes == [code] && compare(token, code)
    ensures Continues(System(u, map[]), run, SideBySide(nonce, Factor(token, false), Factor("", true), now), compare)
    ensures run[5].user.recoveryCodes == [] && run[6].user.recoveryCodes == [code]
  {
    assert FirstCode(token, [code], compare) == Some(0);
    assert RemoveAt([code], 0) == [];
    run := SideBySideRuns(u, nonce, Factor(token, false), Factor("", true), now,
                          Succeeding(nonce, []), Succeeding(nonce, [code]), compare);
  }

  /** The code is stored, or a login under way will store it. */
  predicate CodeKept(s: System, code: Hash) {
    || code in s.user.recoveryCodes
    || exists call | call in s.calls :: s.calls[call].Succeeding? && code in s.calls[call].codes
  }

  predicate NotHandedOut(actions: seq<Action>, code: Hash) {
    forall a | a in actions && a.TurnOn? :: code !in a.codes
  }

  lemma CodeStaysGone(s: System, a: Action, code: Hash, compare: Compare)
    requires Enabled(s, a) && !CodeKept(s, code) && (a.TurnOn? ==> code !in a.codes)
    ensures !CodeKept(Next(s, a, compare), code)
  {
    var next := Next(s, a, compare);
    forall call | call in next.calls
      ensures !(next.calls[call].Succeeding? && code in next.calls[call].codes)
    {
      if call in s.calls { assert !(s.calls[call].Succeeding? && code in s.calls[call].codes); }
    }
  }

  lemma {:induction false} CodeGoneForever(s: System, run: seq<System>, actions: seq<Action>, i: nat, code: Hash,
                                           compare: Compare)
    requires Continues(s, run, actions, compare) && NotHandedOut(actions, code) && !CodeKept(s, code) && i < |run|
    ensures !CodeKept(run[i], code)
  {
    if i > 0 {
      CodeGoneForever(s, run, actions, i - 1, code, compare);
      assert actions[i - 1] in actions;
      CodeStaysGone(run[i - 1], actions[i - 1], code, compare);
    }
  }

  /** Some run from `s`, in which the code is not handed out again, ends with it stored. */
  ghost predicate CanReturn(s: System, code: Hash, compare: Compare) {
    exists run, actions :: EndsWithCode(s, run, actions, code, compare)
  }

  predicate EndsWithCode(s: System, run: seq<System>, actions: seq<Action>, code: Hash, compare: Compare) {
    Continues(s, run, actions, compare) && NotHandedOut(actions, code) && code in run[|actions|].user.recoveryCodes
  }

  lemma GoneNeverReturns(s: System, run: seq<System>, actions: seq<Action>, code: Hash, compare: Compare)
    requires !CodeKept(s, code)
    ensures !EndsWithCode(s, run, actions, code, compare)
  {
    if Continues(s, run, actions, compare) && NotHandedOut(actions, code) {
      CodeGoneForever(s, run, actions, |actions|, code, compare);
    }
  }

  /**
   * However logins overlap, a code is spent for good exactly when it is not stored and no login under
   * way will store it.
   */
  lemma CodeIsSpentIff(s: System, code: Hash, compare: Compare)
    ensures !CanReturn(s, code, compare) <==> !CodeKept(s, code)
  {
    if !CodeKept(s, code) {
      forall run, actions ensures !EndsWithCode(s, run, actions, code, compare) {
        GoneNeverReturns(s, run, actions, code, compare);
      }
    } else if code in s.user.recoveryCodes {
      assert EndsWithCode(s, [s], [], code, compare);
    } else {
      var call :| call in s.calls && s.calls[call].Succeeding? && code in s.calls[call].codes;
      var a := WriteResult(call, 0);
      assert EndsWithCode(s, [s, Next(s, a, compare)], [a], code, compare);
    }
  }

  // ---------------------------------------------------------------------
  // Bounds by the number of logins under way.
  // ---------------------------------------------------------------------

  /** At most `m` logins are under way: they have the numbers below `m`. */
  predicate UnderWay(s: System, m: nat) {
    forall call | call in s.calls :: call < m
  }

  // ----- Failures before a lock -----

  /** Failures left to a counter that stands at `attempts`. */
  function Left(attempts: nat): nat {
    if attempts < MAX_2FA_ATTEMPTS then MAX_2FA_ATTEMPTS - attempts else 0
  }

  /** What slot `i` can still write: what its login read, or what a new one would read. */
  function FailSlot(s: System, m: nat, i: nat): nat {
    Budget(m, Left(if i in s.calls && s.calls[i].Failing? then s.calls[i].attempts else s.user.failedAttempts))
  }

  function FailBudget(s: System, m: nat): nat {
    Total(m, i => FailSlot(s, m, i))
  }

  predicate FailWrite(s: System, a: Action) {
    a.WriteResult? && a.call in s.calls && s.calls[a.call].Failing?
  }

  /** The write locks the account. */
  predicate LockWrite(s: System, a: Action) {
    FailWrite(s, a) && s.calls[a.call].attempts + 1 >= MAX_2FA_ATTEMPTS
  }

  predicate SuccessWrite(s: System, a: Action) {
    a.WriteResult? && a.call in s.calls && s.calls[a.call].Succeeding?
  }

  lemma OtherStepKeepsBudget(s: System, a: Action, m: nat, compare: Compare)
    requires Enabled(s, a) && !FailWrite(s, a) && !SuccessWrite(s, a)
    ensures FailBudget(Next(s, a, compare), m) <= FailBudget(s, m)
  {
    TotalSame(m, i => FailSlot(s, m, i), i => FailSlot(Next(s, a, compare), m, i));
  }

  lemma FailWritePays(s: System, a: Action, m: nat, compare: Compare)
    requires Enabled(s, a) && FailWrite(s, a) && !LockWrite(s, a) && a.call < m
    ensures FailBudget(Next(s, a, compare), m) + 1 <= FailBudget(s, m)
  {
    var next, attempts := Next(s, a, compare), s.calls[a.call].attempts;
    var gain := Budget(m, Left(attempts + 1));
    assert Left(attempts) == Left(attempts + 1) + 1;
    TotalFalls(m, i => FailSlot(s, m, i), i => FailSlot(next, m, i), a.call, gain);
  }

  /** Failing writes of a run. */
  function Failures(run: seq<System>, actions: seq<Action>): nat
    requires |run| == |actions| + 1
  {
    if actions == [] then 0
    else (if FailWrite(run[0], actions[0]) then 1 else 0) + Failures(run[1..], actions[1..])
  }

  /** No success is written, no lock before the last action, and at most `m` logins are under way. */
  predicate UpToALock(run: seq<System>, actions: seq<Action>, m: nat)
    requires |run| == |actions| + 1
  {
    && (forall i | 0 <= i < |run| :: UnderWay(run[i], m))
    && (forall i | 0 <= i < |actions| :: !SuccessWrite(run[i], actions[i]))
    && (forall i | 0 <= i < |actions| - 1 :: !LockWrite(run[i], actions[i]))
  }

  /** All counters, stored or read, are below the limit, which every action keeps. */
  predicate Countable(s: System) {
    && s.user.failedAttempts < MAX_2FA_ATTEMPTS
    && forall call | call in s.calls && s.calls[call].Failing? :: s.calls[call].attempts < MAX_2FA_ATTEMPTS
  }

  lemma AttemptsStayCountable(s: System, a: Action, compare: Compare)
    requires Enabled(s, a) && Countable(s)
    ensures Countable(Next(s, a, compare))
  {
    if FailWrite(s, a) { assert s.calls[a.call].attempts < MAX_2FA_ATTEMPTS; }
  }

  lemma {:induction false} FailuresWithinBudget(s: System, run: seq<System>, actions: seq<Action>, m: nat,
                                                compare: Compare)
    requires Continues(s, run, actions, compare) && UpToALock(run, actions, m) && Countable(s)
    ensures Failures(run, actions) <= FailBudget(s, m)
    decreases |actions|
  {
    if actions != [] {
      var a, next := actions[0], run[1];
      assert Enabled(s, a) && next == Next(s, a, compare) && UnderWay(run[0], m);
      if |actions| == 1 {
        assert actions[1..] == [];
        if FailWrite(s, a) { LastFailure(s, a, m); }
      } else {
        RestUpToALock(s, run, actions, m, compare);
        AttemptsStayCountable(s, a, compare);
        FailuresWithinBudget(next, run[1..], actions[1..], m, compare);
        if FailWrite(s, a) { FailWritePays(s, a, m, compare); } else { OtherStepKeepsBudget(s, a, m, compare); }
      }
    }
  }

  lemma LastFailure(s: System, a: Action, m: nat)
    requires FailWrite(s, a) && Countable(s) && a.call < m
    ensures 1 <= FailBudget(s, m)
  {
    TotalLeast(m, i => FailSlot(s, m, i), a.call);
  }

  lemma RestUpToALock(s: System, run: seq<System>, actions: seq<Action>, m: nat, compare: Compare)
    requires Continues(s, run, actions, compare) && UpToALock(run, actions, m) && |actions| > 1
    ensures Continues(run[1], run[1..], actions[1..], compare) && UpToALock(run[1..], actions[1..], m)
  {
    var rest, more := run[1..], actions[1..];
    assert forall i | 0 <= i < |rest| :: rest[i] == run[i + 1];
    assert forall i | 0 <= i < |more| :: more[i] == actions[i + 1];
  }

  /**
   * With at most `m` logins under way, a success-free stretch up to its first lock holds at most
   * m + m^2 + ... + m^5 failures, from any state: five when they do not overlap.
   */
  lemma FailuresBeforeALock(s: System, run: seq<System>, actions: seq<Action>, m: nat, compare: Compare)
    requires Continues(s, run, actions, compare) && UpToALock(run, actions, m) && Countable(s)
    ensures Failures(run, actions) <= m * Budget(m, MAX_2FA_ATTEMPTS)
  {
    FailuresWithinBudget(s, run, actions, m, compare);
    FailBudgetAtMost(s, m);
  }

  /** A run that goes on as said, with one action more at its start. */
  lemma OneActionBefore(s: System, a: Action, run: seq<System>, actions: seq<Action>, compare: Compare)
    requires run != [] && Moves(s, a, run[0], compare) && Continues(run[0], run, actions, compare)
    requires UpToALock(run, actions, 1) && UnderWay(s, 1) && !SuccessWrite(s, a)
    requires actions != [] ==> !LockWrite(s, a)
    ensures Continues(s, [s] + run, [a] + actions, compare) && UpToALock([s] + run, [a] + actions, 1)
    ensures Failures([s] + run, [a] + actions) == (if FailWrite(s, a) then 1 else 0) + Failures(run, actions)
  {
    var longer, more := [s] + run, [a] + actions;
    assert longer[1..] == run && more[1..] == actions;
    assert forall i | 0 < i < |longer| :: longer[i] == run[i - 1];
    assert forall i | 0 < i < |more| :: more[i] == actions[i - 1];
  }

  /** Logins that fail, one after the other. */
  function OneByOne(n: nat, nonce: Nonce, wrong: Token, now: int): (actions: seq<Action>)
    ensures |actions| == 3 * n
  {
    if n == 0 then []
    else [CheckNonce(0, nonce)] + ([ReadUser(0, wrong, false, now)]
         + ([WriteResult(0, now)] + OneByOne(n - 1, nonce, wrong, now)))
  }

  lemma FailsAlone(u: User, nonce: Nonce, wrong: Token, now: int, compare: Compare)
    requires u.enabled && !Locked(u, now) && u.challenge == Some(nonce)
    requires forall code | code in u.recoveryCodes :: !compare(wrong, code)
    ensures var checked := System(u, map[0 := Checked(nonce)]);
            var failing := System(u, map[0 := Failing(nonce, u.failedAttempts)]);
            && Moves(System(u, map[]), CheckNonce(0, nonce), checked, compare)
            && Moves(checked, ReadUser(0, wrong, false, now), failing, compare)
            && Moves(failing, WriteResult(0, now), System(OnFailure(u, now), map[]), compare)
            && FailWrite(failing, WriteResult(0, now))
            && (LockWrite(failing, WriteResult(0, now)) <==> u.failedAttempts + 1 >= 5)
  {
    assert FirstCode(wrong, u.recoveryCodes, compare) == None;
    var calls: map<nat, Pending> := map[0 := Failing(nonce, u.failedAttempts)];
    assert calls - {0} == map[];
    assert u.(failedAttempts := u.failedAttempts) == u;
  }

  /** A login that fails alone, and then a run as said. */
  lemma OneLoginBefore(u: User, nonce: Nonce, wrong: Token, now: int, run: seq<System>, actions: seq<Action>,
                       compare: Compare) returns (longer: seq<System>)
    requires u.enabled && !Locked(u, now) && u.challenge == Some(nonce)
    requires forall code | code in u.recoveryCodes :: !compare(wrong, code)
    requires Continues(System(OnFailure(u, now), map[]), run, actions, compare) && UpToALock(run, actions, 1)
    requires actions != [] ==> u.failedAttempts + 1 < 5
    ensures var more := [CheckNonce(0, nonce)] + ([ReadUser(0, wrong, false, now)] + ([WriteResult(0, now)] + actions));
            && Continues(System(u, map[]), longer, more, compare) && UpToALock(longer, more, 1)
            && Failures(longer, more) == 1 + Failures(run, actions)
    ensures longer[|longer| - 1] == run[|run| - 1]
  {
    var idle, checked := System(u, map[]), System(u, map[0 := Checked(nonce)]);
    var failing := System(u, map[0 := Failing(nonce, u.failedAttempts)]);
    FailsAlone(u, nonce, wrong, now, compare);
    var last, two := [WriteResult(0, now)] + actions, [failing] + run;
    OneActionBefore(failing, WriteResult(0, now), run, actions, compare);
    OneActionBefore(checked, ReadUser(0, wrong, false, now), two, last, compare);
    OneActionBefore(idle, CheckNonce(0, nonce), [checked] + two, [ReadUser(0, wrong, false, now)] + last, compare);
    longer := [idle] + ([checked] + two);
  }

  /** The bound is reached without overlap: as many failures as are missing from five lock the account. */
  lemma {:induction false} FiveFailuresReachALock(u: User, n: nat, nonce: Nonce, wrong: Token, now: int,
                                                  compare: Compare) returns (run: seq<System>)
    requires n > 0 ==> u.enabled && !Locked(u, now) && u.challenge == Some(nonce) && u.failedAttempts + n == 5
    requires forall code | code in u.recoveryCodes :: !compare(wrong, code)
    ensures var actions := OneByOne(n, nonce, wrong, now);
            && Continues(System(u, map[]), run, actions, compare) && UpToALock(run, actions, 1)
            && Failures(run, actions) == n
    ensures n > 0 ==> LockedTo(run[|run| - 1], now + 900_000)
    decreases n
  {
    if n == 0 {
      run := [System(u, map[])];
    } else {
      var rest := FiveFailuresReachALock(OnFailure(u, now), n - 1, nonce, wrong, now, compare);
      run := OneLoginBefore(u, nonce, wrong, now, rest, OneByOne(n - 1, nonce, wrong, now), compare);
    }
  }

  // ----- Failures during a lock -----

  function FailingSlot(s: System, i: nat): nat {
    if i in s.calls && s.calls[i].Failing? then 1 else 0
  }

  /** Logins under way that have decided to fail. */
  function FailingCalls(s: System, m: nat): nat {
    Total(m, i => FailingSlot(s, i))
  }

  /** Locked at least until `until`. */
  predicate LockedTo(s: System, until: int) {
    s.user.lockedUntil.Some? && s.user.lockedUntil.value >= until
  }

  /** The action falls into the fifteen minutes that end at `until`, and writes no success. */
  predicate DuringLock(s: System, a: Action, until: int) {
    && !SuccessWrite(s, a)
    && (a.ReadUser? || a.WriteResult? ==> until - LOCKOUT_MS <= a.now < until)
  }

  lemma LockedStep(s: System, a: Action, m: nat, until: int, compare: Compare)
    requires Enabled(s, a) && LockedTo(s, until) && DuringLock(s, a, until) && UnderWay(s, m)
    ensures LockedTo(Next(s, a, compare), until)
    ensures FailingCalls(Next(s, a, compare), m) + (if FailWrite(s, a) then 1 else 0) <= FailingCalls(s, m)
  {
    var next := Next(s, a, compare);
    if FailWrite(s, a) {
      TotalFalls(m, i => FailingSlot(s, i), i => FailingSlot(next, i), a.call, 0);
    } else {
      TotalSame(m, i => FailingSlot(s, i), i => FailingSlot(next, i));
    }
  }

  predicate AllDuringLock(run: seq<System>, actions: seq<Action>, until: int, m: nat)
    requires |run| == |actions| + 1
  {
    forall i | 0 <= i < |actions| :: DuringLock(run[i], actions[i], until) && UnderWay(run[i], m)
  }

  /** While the account is locked, only the logins that were already failing when it was locked can still fail. */
  lemma {:induction false} LockStopsNewFailures(s: System, run: seq<System>, actions: seq<Action>, until: int, m: nat,
                                                compare: Compare)
    requires Continues(s, run, actions, compare) && AllDuringLock(run, actions, until, m) && LockedTo(s, until)
    ensures Failures(run, actions) <= FailingCalls(s, m)
    decreases |actions|
  {
    if actions != [] {
      var rest, more := run[1..], actions[1..];
      assert Enabled(s, actions[0]) && run[1] == Next(s, actions[0], compare) && DuringLock(run[0], actions[0], until);
      LockedStep(s, actions[0], m, until, compare);
      assert forall i | 0 <= i < |rest| :: rest[i] == run[i + 1];
      assert forall i | 0 <= i < |more| :: more[i] == actions[i + 1];
      LockStopsNewFailures(run[1], rest, more, until, m, compare);
    }
  }

  lemma FailingCallsAtMost(s: System, m: nat)
    ensures FailingCalls(s, m) <= m
  {
    TotalAtMost(m, i => FailingSlot(s, i), 1);
  }

  // ----- The rate of failures -----

  predicate IsTimed(a: Action) {
    a.ReadUser? || a.WriteResult?
  }

  /** The clock starts at `from`, never runs backwards and stops at `end`. */
  predicate Clocked(actions: seq<Action>, from: int, end: int) {
    actions == [] ||
    (var a := actions[0];
     if IsTimed(a) then from <= a.now <= end && Clocked(actions[1..], a.now, end) else Clocked(actions[1..], from, end))
  }

  /** No success is written, and at most `m` logins are under way. */
  predicate SuccessFree(run: seq<System>, actions: seq<Action>, m: nat)
    requires |run| == |actions| + 1
  {
    forall i | 0 <= i < |actions| :: !SuccessWrite(run[i], actions[i]) && UnderWay(run[i], m)
  }

  /** The lockouts that can start from `from` up to `end`, one after the other. */
  function Rounds(from: int, end: int): nat
    decreases end - from
  {
    if end < from then 0 else 1 + Rounds(from + LOCKOUT_MS, end)
  }

  lemma {:induction false} RoundsShrink(from: int, later: int, end: int)
    requires from <= later
    ensures Rounds(later, end) <= Rounds(from, end)
    decreases end - from
  {
    if end >= later { RoundsShrink(from + LOCKOUT_MS, later + LOCKOUT_MS, end); }
  }

  lemma {:induction false} RoundsOfSpan(from: int, span: nat)
    ensures Rounds(from, from + span) == span / LOCKOUT_MS + 1
    decreases span
  {
    if span >= LOCKOUT_MS { RoundsOfSpan(from + LOCKOUT_MS, span - LOCKOUT_MS); }
  }

  /** Failures up to a lock, and during it. */
  function PerRound(m: nat): nat
    requires m > 0
  {
    m * Budget(m, MAX_2FA_ATTEMPTS) + m - 1
  }

  lemma FailBudgetAtMost(s: System, m: nat)
    ensures FailBudget(s, m) <= m * Budget(m, MAX_2FA_ATTEMPTS)
  {
    forall i | 0 <= i < m ensures FailSlot(s, m, i) <= Budget(m, MAX_2FA_ATTEMPTS) {
      var read := if i in s.calls && s.calls[i].Failing? then s.calls[i].attempts else s.user.failedAttempts;
      BudgetGrows(m, Left(read), MAX_2FA_ATTEMPTS);
    }
    TotalAtMost(m, i => FailSlot(s, m, i), Budget(m, MAX_2FA_ATTEMPTS));
  }

  /** A failing write takes its login off the list, so at most `m - 1` are left. */
  lemma FewerFailing(s: System, a: Action, m: nat, compare: Compare)
    requires Enabled(s, a) && FailWrite(s, a) && a.call < m
    ensures FailingCalls(Next(s, a, compare), m) + 1 <= m
  {
    TotalFalls(m, i => FailingSlot(s, i), i => FailingSlot(Next(s, a, compare), i), a.call, 0);
    FailingCallsAtMost(s, m);
  }

  lemma Tail(s: System, run: seq<System>, actions: seq<Action>, m: nat, compare: Compare)
    requires Continues(s, run, actions, compare) && SuccessFree(run, actions, m) && actions != []
    ensures Enabled(s, actions[0]) && run[1] == Next(s, actions[0], compare)
    ensures !SuccessWrite(s, actions[0]) && UnderWay(s, m)
    ensures Continues(run[1], run[1..], actions[1..], compare) && SuccessFree(run[1..], actions[1..], m)
  {
    var rest, more := run[1..], actions[1..];
    assert !SuccessWrite(run[0], actions[0]);
    assert forall i | 0 <= i < |rest| :: rest[i] == run[i + 1];
    assert forall i | 0 <= i < |more| :: more[i] == actions[i + 1];
  }

  /** From an open account: what the budget allows up to a lock, `m - 1` during it, and then full rounds. */
  function OpenBound(s: System, m: nat, per: nat, from: int, end: int): int {
    FailBudget(s, m) + m - 1 + Rounds(from + LOCKOUT_MS, end) * per
  }

  /** From an account locked until `until`: the logins that are failing already, and then full rounds. */
  function LockedBound(s: System, m: nat, per: nat, until: int, end: int): int {
    FailingCalls(s, m) + Rounds(until, end) * per
  }

  lemma LaterRounds(from: int, later: int, end: int, per: nat)
    requires from <= later
    ensures Rounds(later, end) * per <= Rounds(from, end) * per
  {
    RoundsShrink(from, later, end);
    Scaled(per, Rounds(later, end), Rounds(from, end));
  }

  lemma OpenStep(s: System, a: Action, m: nat, per: nat, from: int, later: int, end: int, compare: Compare)
    requires Enabled(s, a) && !SuccessWrite(s, a) && !LockWrite(s, a) && UnderWay(s, m) && from <= later
    ensures OpenBound(Next(s, a, compare), m, per, later, end) + (if FailWrite(s, a) then 1 else 0)
            <= OpenBound(s, m, per, from, end)
  {
    LaterRounds(from + LOCKOUT_MS, later + LOCKOUT_MS, end, per);
    if FailWrite(s, a) { FailWritePays(s, a, m, compare); } else { OtherStepKeepsBudget(s, a, m, compare); }
  }

  lemma LockStep(s: System, a: Action, m: nat, per: nat, from: int, end: int, compare: Compare)
    requires Enabled(s, a) && LockWrite(s, a) && UnderWay(s, m) && Countable(s) && from <= a.now
    ensures LockedTo(Next(s, a, compare), a.now + LOCKOUT_MS)
    ensures LockedBound(Next(s, a, compare), m, per, a.now + LOCKOUT_MS, end) + 1 <= OpenBound(s, m, per, from, end)
  {
    LaterRounds(from + LOCKOUT_MS, a.now + LOCKOUT_MS, end, per);
    LastFailure(s, a, m);
    FewerFailing(s, a, m, compare);
  }

  lemma {:induction false} RateWhenOpen(s: System, run: seq<System>, actions: seq<Action>, m: nat, per: nat,
                                        from: int, end: int, compare: Compare)
    requires Continues(s, run, actions, compare) && SuccessFree(run, actions, m) && Countable(s) && m > 0
    requires per == PerRound(m) && Clocked(actions, from, end)
    ensures Failures(run, actions) <= OpenBound(s, m, per, from, end)
    decreases |actions|, 0
  {
    if actions != [] {
      var a, next := actions[0], run[1];
      Tail(s, run, actions, m, compare);
      AttemptsStayCountable(s, a, compare);
      if LockWrite(s, a) {
        LockStep(s, a, m, per, from, end, compare);
        RateWhenLocked(next, run[1..], actions[1..], m, per, a.now, a.now + LOCKOUT_MS, end, compare);
      } else {
        var later := if IsTimed(a) then a.now else from;
        OpenStep(s, a, m, per, from, later, end, compare);
        RateWhenOpen(next, run[1..], actions[1..], m, per, later, end, compare);
      }
    }
  }

  lemma {:induction false} RateWhenLocked(s: System, run: seq<System>, actions: seq<Action>, m: nat, per: nat,
                                          from: int, until: int, end: int, compare: Compare)
    requires Continues(s, run, actions, compare) && SuccessFree(run, actions, m) && Countable(s) && m > 0
    requires per == PerRound(m)
    requires Clocked(actions, from, end) && LockedTo(s, until) && until - LOCKOUT_MS <= from
    ensures Failures(run, actions) <= LockedBound(s, m, per, until, end)
    decreases |actions|, 1
  {
    if actions != [] {
      var a, next := actions[0], run[1];
      if IsTimed(a) && a.now >= until {
        RateWhenOpen(s, run, actions, m, per, until, end, compare);
        Unlocked(s, m, until, end);
      } else {
        Tail(s, run, actions, m, compare);
        AttemptsStayCountable(s, a, compare);
        LockedStep(s, a, m, until, compare);
        RateWhenLocked(next, run[1..], actions[1..], m, per, if IsTimed(a) then a.now else from, until, end, compare);
      }
    }
  }

  /** A round covers what an open account allows. */
  lemma Unlocked(s: System, m: nat, from: int, end: int)
    requires m > 0 && from <= end
    ensures OpenBound(s, m, PerRound(m), from, end) <= Rounds(from, end) * PerRound(m)
  {
    FailBudgetAtMost(s, m);
    OneRoundMore(Rounds(from + LOCKOUT_MS, end), PerRound(m));
  }

  lemma OneRoundMore(k: nat, x: nat)
    ensures (1 + k) * x == x + k * x
  {
  }

  /**
   * With at most `m` logins under way, a success-free stretch of length `span` holds at most
   * m + m^2 + ... + m^5, and m - 1 more, failures per started fifteen minutes.
   */
  lemma OverlapRateIsBounded(s: System, run: seq<System>, actions: seq<Action>, m: nat, from: int, span: nat,
                             compare: Compare)
    requires Continues(s, run, actions, compare) && SuccessFree(run, actions, m) && Countable(s) && m > 0
    requires Clocked(actions, from, from + span)
    ensures Failures(run, actions) <= (span / LOCKOUT_MS + 1) * PerRound(m)
  {
    RateWhenOpen(s, run, actions, m, PerRound(m), from, from + span, compare);
    Unlocked(s, m, from, from + span);
    RoundsOfSpan(from, span);
  }

  /** One login at a time fails at the rate of the atomic model: five per started fifteen minutes. */
  lemma RateWithoutOverlap(s: System, run: seq<System>, actions: seq<Action>, from: int, span: nat, compare: Compare)
    requires Continues(s, run, actions, compare) && SuccessFree(run, actions, 1) && Countable(s)
    requires Clocked(actions, from, from + span)
    ensures Failures(run, actions) <= 5 * (span / LOCKOUT_MS + 1)
  {
    OverlapRateIsBounded(s, run, actions, 1, from, span, compare);
    BudgetOfOne(MAX_2FA_ATTEMPTS);
  }

  // ----- Recovery logins -----

  /** Codes that slot `i` can still spend: those its login read, or those a new one would read. */
  function CodeSlot(s: System, m: nat, i: nat): nat {
    Budget(m, if i in s.calls && s.calls[i].Succeeding? then |s.calls[i].codes| + 1 else |s.user.recoveryCodes|)
  }

  function CodeBudget(s: System, m: nat): nat {
    Total(m, i => CodeSlot(s, m, i))
  }

  /** Second factors are recovery codes only, and no codes are handed out. */
  predicate RecoveryOnly(a: Action) {
    !a.TurnOn? && (a.ReadUser? ==> !a.totpValid)
  }

  lemma OtherStepKeepsCodes(s: System, a: Action, m: nat, compare: Compare)
    requires Enabled(s, a) && RecoveryOnly(a) && !SuccessWrite(s, a)
    ensures CodeBudget(Next(s, a, compare), m) <= CodeBudget(s, m)
  {
    var next := Next(s, a, compare);
    forall i | 0 <= i < m ensures CodeSlot(next, m, i) <= CodeSlot(s, m, i) {
      BudgetGrows(m, 0, |s.user.recoveryCodes|);
    }
    TotalSame(m, i => CodeSlot(s, m, i), i => CodeSlot(next, m, i));
  }

  lemma SuccessWritePays(s: System, a: Action, m: nat, compare: Compare)
    requires Enabled(s, a) && SuccessWrite(s, a) && a.call < m
    ensures CodeBudget(Next(s, a, compare), m) + 1 <= CodeBudget(s, m)
  {
    var next, left := Next(s, a, compare), |s.calls[a.call].codes|;
    TotalFalls(m, i => CodeSlot(s, m, i), i => CodeSlot(next, m, i), a.call, Budget(m, left));
  }

  function Successes(run: seq<System>, actions: seq<Action>): nat
    requires |run| == |actions| + 1
  {
    if actions == [] then 0
    else (if SuccessWrite(run[0], actions[0]) then 1 else 0) + Successes(run[1..], actions[1..])
  }

  predicate AllRecovery(run: seq<System>, actions: seq<Action>, m: nat)
    requires |run| == |actions| + 1
  {
    forall i | 0 <= i < |actions| :: RecoveryOnly(actions[i]) && UnderWay(run[i], m)
  }

  lemma {:induction false} SuccessesWithinBudget(s: System, run: seq<System>, actions: seq<Action>, m: nat,
                                                 compare: Compare)
    requires Continues(s, run, actions, compare) && AllRecovery(run, actions, m)
    ensures Successes(run, actions) <= CodeBudget(s, m)
    decreases |actions|
  {
    if actions != [] {
      var a, rest, more := actions[0], run[1..], actions[1..];
      assert Enabled(s, a) && run[1] == Next(s, a, compare) && RecoveryOnly(actions[0]) && UnderWay(run[0], m);
      assert forall i | 0 <= i < |rest| :: rest[i] == run[i + 1];
      assert forall i | 0 <= i < |more| :: more[i] == actions[i + 1];
      SuccessesWithinBudget(run[1], rest, more, m, compare);
      if SuccessWrite(s, a) { SuccessWritePays(s, a, m, compare); } else { OtherStepKeepsCodes(s, a, m, compare); }
    }
  }

  /**
   * With at most `m` logins under way, and recovery codes as the only second factor, `n` codes allow at
   * most m + m^2 + ... + m^n logins: `n` when they do not overlap.
   */
  lemma RecoveryLoginsAreBounded(s: System, run: seq<System>, actions: seq<Action>, m: nat, compare: Compare)
    requires Continues(s, run, actions, compare) && AllRecovery(run, actions, m)
    requires forall call | call in s.calls :: !s.calls[call].Succeeding?
    ensures Successes(run, actions) <= m * Budget(m, |s.user.recoveryCodes|)
  {
    SuccessesWithinBudget(s, run, actions, m, compare);
    TotalAtMost(m, i => CodeSlot(s, m, i), Budget(m, |s.user.recoveryCodes|));
  }

  lemma OneRecoveryActionBefore(s: System, a: Action, run: seq<System>, actions: seq<Action>, compare: Compare)
    requires run != [] && Moves(s, a, run[0], compare) && Continues(run[0], run, actions, compare)
    requires AllRecovery(run, actions, 1) && UnderWay(s, 1) && RecoveryOnly(a)
    ensures Continues(s, [s] + run, [a] + actions, compare) && AllRecovery([s] + run, [a] + actions, 1)
    ensures Successes([s] + run, [a] + actions) == (if SuccessWrite(s, a) then 1 else 0) + Successes(run, actions)
  {
    var longer, more := [s] + run, [a] + actions;
    assert longer[1..] == run && more[1..] == actions;
    assert forall i | 0 < i < |longer| :: longer[i] == run[i - 1];
    assert forall i | 0 < i < |more| :: more[i] == actions[i - 1];
  }

  /** A login by recovery code, followed by `actions`. */
  function LoginThen(nonce: Nonce, token: Token, now: int, actions: seq<Action>): seq<Action> {
    [Issue(nonce)] + ([CheckNonce(0, nonce)] + ([ReadUser(0, token, false, now)] + ([WriteResult(0, now)] + actions)))
  }

  lemma LogsInAlone(u: User, nonce: Nonce, token: Token, now: int, compare: Compare)
    requires u.enabled && !Locked(u, now) && u.recoveryCodes != [] && compare(token, u.recoveryCodes[0])
    ensures var asked := u.(challenge := Some(nonce));
            var checked, passed := System(asked, map[0 := Checked(nonce)]),
                                   System(asked, map[0 := Succeeding(nonce, u.recoveryCodes[1..])]);
            && Moves(System(u, map[]), Issue(nonce), System(asked, map[]), compare)
            && Moves(System(asked, map[]), CheckNonce(0, nonce), checked, compare)
            && Moves(checked, ReadUser(0, token, false, now), passed, compare)
            && Moves(passed, WriteResult(0, now), System(OnSuccess(u, u.recoveryCodes[1..]), map[]), compare)
  {
    assert FirstCode(token, u.recoveryCodes, compare) == Some(0);
    assert RemoveAt(u.recoveryCodes, 0) == u.recoveryCodes[1..];
    var calls: map<nat, Pending> := map[0 := Succeeding(nonce, u.recoveryCodes[1..])];
    assert calls - {0} == map[];
  }

  lemma OneRecoveryLoginBefore(u: User, nonce: Nonce, token: Token, now: int, run: seq<System>, actions: seq<Action>,
                               compare: Compare) returns (longer: seq<System>)
    requires u.enabled && !Locked(u, now) && u.recoveryCodes != [] && compare(token, u.recoveryCodes[0])
    requires Continues(System(OnSuccess(u, u.recoveryCodes[1..]), map[]), run, actions, compare)
    requires AllRecovery(run, actions, 1)
    ensures var more := LoginThen(nonce, token, now, actions);
            && Continues(System(u, map[]), longer, more, compare) && AllRecovery(longer, more, 1)
            && Successes(longer, more) == 1 + Successes(run, actions)
  {
    var asked := u.(challenge := Some(nonce));
    var checked, passed := System(asked, map[0 := Checked(nonce)]),
                           System(asked, map[0 := Succeeding(nonce, u.recoveryCodes[1..])]);
    LogsInAlone(u, nonce, token, now, compare);
    var last, two := [WriteResult(0, now)] + actions, [passed] + run;
    OneRecoveryActionBefore(passed, WriteResult(0, now), run, actions, compare);
    var read, three := [ReadUser(0, token, false, now)] + last, [checked] + two;
    OneRecoveryActionBefore(checked, ReadUser(0, token, false, now), two, last, compare);
    OneRecoveryActionBefore(System(asked, map[]), CheckNonce(0, nonce), three, read, compare);
    OneRecoveryActionBefore(System(u, map[]), Issue(nonce), [System(asked, map[])] + three,
                            [CheckNonce(0, nonce)] + read, compare);
    longer := [System(u, map[])] + ([System(asked, map[])] + three);
  }

  /** Logins one after the other with a token for each code. */
  function EachCode(tokens: seq<Token>, nonce: Nonce, now: int): seq<Action> {
    if tokens == [] then [] else LoginThen(nonce, tokens[0], now, EachCode(tokens[1..], nonce, now))
  }

  /** The bound is reached without overlap: every code logs in. */
  lemma {:induction false} EveryCodeLogsIn(u: User, tokens: seq<Token>, nonce: Nonce, now: int, compare: Compare)
    returns (run: seq<System>)
    requires u.enabled && !Locked(u, now) && |tokens| == |u.recoveryCodes|
    requires forall i | 0 <= i < |tokens| :: compare(tokens[i], u.recoveryCodes[i])
    ensures var actions := EachCode(tokens, nonce, now);
            && Continues(System(u, map[]), run, actions, compare) && AllRecovery(run, actions, 1)
            && Successes(run, actions) == |u.recoveryCodes|
    decreases |tokens|
  {
    if tokens == [] {
      run := [System(u, map[])];
    } else {
      assert forall i | 0 <= i < |tokens| - 1 :: compare(tokens[1..][i], u.recoveryCodes[1..][i]);
      var rest := EveryCodeLogsIn(OnSuccess(u, u.recoveryCodes[1..]), tokens[1..], nonce, now, compare);
      run := OneRecoveryLoginBefore(u, nonce, tokens[0], now, rest, EachCode(tokens[1..], nonce, now), compare);
    }
  }
}
