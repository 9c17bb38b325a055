/** Two-factor login: the single-use challenge, the per-user lockout and the recovery codes. */
module TwoFactor {
  import opened Options

  const RECOVERY_CODE_COUNT := 10
  const MAX_2FA_ATTEMPTS := 5
  const LOCKOUT_MS := 15 * 60 * 1000

  type Token = string
  type Hash = string
  type Nonce = string

  /** Does a token match a stored recovery-code hash? */
  type Compare = (Token, Hash) -> bool

  datatype User = User(enabled: bool, challenge: Option<Nonce>, failedAttempts: nat, lockedUntil: Option<int>,
                       recoveryCodes: seq<Hash>)

  datatype Outcome = NotEnabled | LockedOut | Passed(recovery: bool) | Failed | BadChallenge

  predicate Locked(u: User, now: int) {
    u.lockedUntil.Some? && u.lockedUntil.value > now
  }

  /** Position of the first recovery code that `token` matches. */
  function FirstCode(token: Token, codes: seq<Hash>, compare: Compare): (i: Option<nat>)
    ensures i.Some? ==> i.value < |codes| && compare(token, codes[i.value])
    ensures forall k | 0 <= k < |codes| && (i.None? || k < i.value) :: !compare(token, codes[k])
  {
    FindFrom(codes, code => compare(token, code), 0)
  }

  function RemoveAt(codes: seq<Hash>, i: nat): seq<Hash>
    requires i < |codes|
  {
    codes[..i] + codes[i + 1..]
  }

  function OnSuccess(u: User, codes: seq<Hash>): User {
    u.(recoveryCodes := codes, failedAttempts := 0, lockedUntil := None, challenge := None)
  }

  function OnFailure(u: User, now: int): User {
    if u.failedAttempts + 1 >= MAX_2FA_ATTEMPTS then u.(failedAttempts := 0, lockedUntil := Some(now + LOCKOUT_MS))
    else u.(failedAttempts := u.failedAttempts + 1)
  }

  /** `totpValid`: the token is a current TOTP code of the user. */
  function Verify(u: User, token: Token, totpValid: bool, now: int, compare: Compare): (User, Outcome) {
    if !u.enabled then (u, NotEnabled)
    else if Locked(u, now) then (u, LockedOut)
    else if totpValid then (OnSuccess(u, u.recoveryCodes), Passed(false))
    else match FirstCode(token, u.recoveryCodes, compare)
         case Some(i) => (OnSuccess(u, RemoveAt(u.recoveryCodes, i)), Passed(true))
         case None => (OnFailure(u, now), Failed)
  }

  /** The stored row of one user. */
  class UserRow {
    var twoFactorEnabled: bool
    var twoFactorChallenge: Option<Nonce>
    var twoFactorFailedAttempts: nat
    var twoFactorLockedUntil: Option<int>
    var recoveryCodes: seq<Hash>

    function Value(): User
      reads this
    {
      User(twoFactorEnabled, twoFactorChallenge, twoFactorFailedAttempts, twoFactorLockedUntil, recoveryCodes)
    }

    constructor ()
      ensures Value() == User(false, None, 0, None, [])
    {
      twoFactorEnabled, twoFactorChallenge, twoFactorFailedAttempts := false, None, 0;
      twoFactorLockedUntil, recoveryCodes := None, [];
    }

    method StartLoginChallenge(nonce: Nonce)
      modifies this
      ensures Value() == old(Value()).(challenge := Some(nonce))
    {
      twoFactorChallenge := Some(nonce);
    }

    method VerifyToken(token: Token, totpValid: bool, now: int, compare: Compare) returns (outcome: Outcome)
      modifies this
      ensures (Value(), outcome) == Verify(old(Value()), token, totpValid, now, compare)
      ensures outcome.Passed? ==>
                twoFactorChallenge == None && twoFactorFailedAttempts == 0 && twoFactorLockedUntil == None
      ensures outcome == Passed(true) ==>
                exists i | 0 <= i < |old(recoveryCodes)| ::
                  && compare(token, old(recoveryCodes)[i])
                  && (forall k | 0 <= k < i :: !compare(token, old(recoveryCodes)[k]))
                  && recoveryCodes == old(recoveryCodes)[..i] + old(recoveryCodes)[i + 1..]
      ensures outcome != Passed(true) ==> recoveryCodes == old(recoveryCodes)
    {
      if !twoFactorEnabled { return NotEnabled; }
      if twoFactorLockedUntil.Some? && twoFactorLockedUntil.value > now { return LockedOut; }
      if totpValid {
        OnVerifySuccess(recoveryCodes);
        return Passed(false);
      }
      for i := 0 to |recoveryCodes|
        invariant Value() == old(Value())
        invariant forall k | 0 <= k < i :: !compare(token, recoveryCodes[k])
      {
        if compare(token, recoveryCodes[i]) {
          OnVerifySuccess(recoveryCodes[..i] + recoveryCodes[i + 1..]);
          return Passed(true);
        }
      }
      OnVerifyFailure(now);
      return Failed;
    }

    method OnVerifySuccess(codes: seq<Hash>)
      modifies this
      ensures Value() == OnSuccess(old(Value()), codes)
    {
      recoveryCodes, twoFactorFailedAttempts, twoFactorLockedUntil, twoFactorChallenge := codes, 0, None, None;
    }

    method OnVerifyFailure(now: int)
      modifies this
      ensures Value() == OnFailure(old(Value()), now)
    {
      var attempts := twoFactorFailedAttempts + 1;
      if attempts >= MAX_2FA_ATTEMPTS {
        twoFactorFailedAttempts, twoFactorLockedUntil := 0, Some(now + LOCKOUT_MS);
      } else {
        twoFactorFailedAttempts := attempts;
      }
    }
  }

  // ---------------------------------------------------------------------
  // Runs.
  // ---------------------------------------------------------------------

  datatype Event =
    | Login(nonce: Nonce)                                              // password accepted, challenge issued
    | Attempt(nonce: Nonce, token: Token, totpValid: bool, now: int)   // second factor presented
    | Enable(codes: seq<Hash>)
    | Disable

  function Step(u: User, e: Event, compare: Compare): (User, Outcome) {
    match e
    case Login(nonce) => (u.(challenge := Some(nonce)), NotEnabled)
    case Attempt(nonce, token, totpValid, now) =>
      if u.challenge != Some(nonce) then (u, BadChallenge) else Verify(u, token, totpValid, now, compare)
    case Enable(codes) =>
      if u.enabled then (u, NotEnabled) else (u.(enabled := true, recoveryCodes := codes), NotEnabled)
    case Disable => if u.enabled then (u.(enabled := false, recoveryCodes := []), NotEnabled) else (u, NotEnabled)
  }

  function After(u: User, es: seq<Event>, compare: Compare): User {
    if es == [] then u else Step(After(u, es[..|es| - 1], compare), es[|es| - 1], compare).0
  }

  /** Outcome of the last event of `es`. */
  function LastOutcome(u: User, es: seq<Event>, compare: Compare): Outcome
    requires es != []
  {
    Step(After(u, es[..|es| - 1], compare), es[|es| - 1], compare).1
  }

  predicate SuccessFree(u: User, es: seq<Event>, compare: Compare) {
    es == [] || (!LastOutcome(u, es, compare).Passed? && SuccessFree(u, es[..|es| - 1], compare))
  }

  /** Attempts come in the order of the clock. */
  predicate Timed(es: seq<Event>) {
    forall i, j | 0 <= i < j < |es| && es[i].Attempt? && es[j].Attempt? :: es[i].now <= es[j].now
  }

  /** Times of the failed attempts. */
  function FailTimes(u: User, es: seq<Event>, compare: Compare): seq<int> {
    if es == [] then [] else
    FailTimes(u, es[..|es| - 1], compare) + if LastOutcome(u, es, compare).Failed? then [es[|es| - 1].now] else []
  }

  // ---------------------------------------------------------------------
  // Lockout.
  // ---------------------------------------------------------------------

  predicate Ascending(ts: seq<int>) {
    forall i, j | 0 <= i < j < |ts| :: ts[i] <= ts[j]
  }

  /** The counter counts the failures since the failure that set the lock. */
  predicate CountsSinceLock(u: User, ts: seq<int>) {
    && u.failedAttempts < MAX_2FA_ATTEMPTS
    && (|ts| > u.failedAttempts ==> u.lockedUntil == Some(ts[|ts| - 1 - u.failedAttempts] + LOCKOUT_MS))
  }

  /** Every failure comes at least a lockout after the fifth failure before it. */
  predicate Spaced(ts: seq<int>) {
    forall i | 0 <= i < |ts| - MAX_2FA_ATTEMPTS :: ts[i] + LOCKOUT_MS <= ts[i + MAX_2FA_ATTEMPTS]
  }

  lemma FailureKeeps(u: User, ts: seq<int>, now: int)
    requires CountsSinceLock(u, ts) && Spaced(ts) && Ascending(ts) && !Locked(u, now)
    requires forall i | 0 <= i < |ts| :: ts[i] <= now
    ensures CountsSinceLock(OnFailure(u, now), ts + [now]) && Spaced(ts + [now]) && Ascending(ts + [now])
  {
    if |ts| >= MAX_2FA_ATTEMPTS {
      assert ts[|ts| - MAX_2FA_ATTEMPTS] <= ts[|ts| - 1 - u.failedAttempts];
    }
  }

  predicate Within(ts: seq<int>, lo: int, hi: int) {
    forall i | 0 <= i < |ts| :: lo <= ts[i] <= hi
  }

  /** Bounds on the times of the attempts bound the times of the failures. */
  lemma {:induction false} FailuresAreAttempts(u: User, es: seq<Event>, compare: Compare, lo: int, hi: int)
    requires forall i | 0 <= i < |es| && es[i].Attempt? :: lo <= es[i].now <= hi
    ensures Within(FailTimes(u, es, compare), lo, hi)
    decreases |es|
  {
    if es != [] { FailuresAreAttempts(u, es[..|es| - 1], compare, lo, hi); }
  }

  /** A time no later than any attempt. */
  lemma {:induction false} EarliestTime(es: seq<Event>) returns (lo: int)
    ensures forall i | 0 <= i < |es| && es[i].Attempt? :: lo <= es[i].now
    decreases |es|
  {
    if es == [] {
      lo := 0;
    } else {
      lo := EarliestTime(es[..|es| - 1]);
      var e := es[|es| - 1];
      if e.Attempt? && e.now < lo { lo := e.now; }
    }
  }

  /** The failures so far are spaced, and the counter counts those since the lock. */
  predicate KeepsLock(u: User, ts: seq<int>) {
    CountsSinceLock(u, ts) && Spaced(ts) && Ascending(ts)
  }

  lemma StepKeepsLock(u: User, ts: seq<int>, e: Event, compare: Compare)
    requires KeepsLock(u, ts) && !Step(u, e, compare).1.Passed?
    requires e.Attempt? ==> forall i | 0 <= i < |ts| :: ts[i] <= e.now
    ensures KeepsLock(Step(u, e, compare).0, ts + if Step(u, e, compare).1.Failed? then [e.now] else [])
  {
    if Step(u, e, compare).1.Failed? {
      FailureKeeps(u, ts, e.now);
    } else {
      assert ts + [] == ts;
    }
  }

  lemma {:induction false} RunKeepsLock(u: User, es: seq<Event>, compare: Compare)
    requires u.failedAttempts < MAX_2FA_ATTEMPTS && Timed(es) && SuccessFree(u, es, compare)
    ensures KeepsLock(After(u, es, compare), FailTimes(u, es, compare))
    decreases |es|
  {
    if es != [] {
      var init, e := es[..|es| - 1], es[|es| - 1];
      RunKeepsLock(u, init, compare);
      if e.Attempt? {
        var lo := EarliestTime(init);
        FailuresAreAttempts(u, init, compare, lo, e.now);
      }
      StepKeepsLock(After(u, init, compare), FailTimes(u, init, compare), e, compare);
    }
  }

  /** The counter never reaches the limit: the bound the lemmas below start from holds in every run. */
  lemma {:induction false} AttemptsStayBelowLimit(u: User, es: seq<Event>, compare: Compare)
    requires u.failedAttempts < MAX_2FA_ATTEMPTS
    ensures After(u, es, compare).failedAttempts < MAX_2FA_ATTEMPTS
    decreases |es|
  {
    if es != [] { AttemptsStayBelowLimit(u, es[..|es| - 1], compare); }
  }

  /** Any six consecutive failures span at least fifteen minutes, from any state and through any other events. */
  lemma SixFailuresSpanALockout(u: User, es: seq<Event>, compare: Compare, i: nat)
    requires u.failedAttempts < MAX_2FA_ATTEMPTS && Timed(es) && SuccessFree(u, es, compare)
    requires i + 5 < |FailTimes(u, es, compare)|
    ensures FailTimes(u, es, compare)[i + 5] - FailTimes(u, es, compare)[i] >= LOCKOUT_MS
  {
    RunKeepsLock(u, es, compare);
  }

  lemma {:induction false} SpacedGrows(ts: seq<int>, k: nat)
    requires Spaced(ts) && 5 * k < |ts|
    ensures ts[0] + k * LOCKOUT_MS <= ts[5 * k]
  {
    if k > 0 {
      SpacedGrows(ts, k - 1);
      assert ts[5 * (k - 1)] + LOCKOUT_MS <= ts[5 * (k - 1) + MAX_2FA_ATTEMPTS];
    }
  }

  /** A success-free stretch of length `span` holds at most five failures per started fifteen minutes. */
  lemma FailureRateIsBounded(u: User, es: seq<Event>, compare: Compare, from: int, span: nat)
    requires u.failedAttempts < MAX_2FA_ATTEMPTS && Timed(es) && SuccessFree(u, es, compare)
    requires forall i | 0 <= i < |es| && es[i].Attempt? :: from <= es[i].now <= from + span
    ensures |FailTimes(u, es, compare)| <= 5 * (span / LOCKOUT_MS + 1)
  {
    RunKeepsLock(u, es, compare);
    FailuresAreAttempts(u, es, compare, from, from + span);
    SpacedIsSparse(FailTimes(u, es, compare), from, span);
  }

  lemma SpacedIsSparse(ts: seq<int>, from: int, span: nat)
    requires Spaced(ts) && Within(ts, from, from + span)
    ensures |ts| <= 5 * (span / LOCKOUT_MS + 1)
  {
    var k := span / LOCKOUT_MS + 1;
    if |ts| > 5 * k {
      SpacedGrows(ts, k);
    }
  }

  /** The row after failures at the times `ts` and no success: every fifth one locks for 900,000 ms from then. */
  predicate LockedByFives(u: User, ts: seq<int>) {
    && u.failedAttempts == |ts| % 5
    && u.lockedUntil == if |ts| < 5 then None else Some(ts[|ts| - |ts| % 5 - 1] + 900_000)
  }

  lemma OneMoreFailure(u: User, ts: seq<int>, now: int)
    requires LockedByFives(u, ts)
    ensures LockedByFives(OnFailure(u, now), ts + [now])
  {
    var n := |ts|;
    if n % 5 == 4 {
      assert (n + 1) % 5 == 0 && (ts + [now])[n] == now;
    } else {
      assert (n + 1) % 5 == n % 5 + 1;
      if n >= 5 { assert (ts + [now])[n - n % 5 - 1] == ts[n - n % 5 - 1]; }
    }
  }

  /**
   * After a success it takes five failures to lock the account, and five more to lock it again; a lock
   * lasts 900,000 ms from the failure that set it.
   */
  lemma {:induction false} FiveFailuresLock(u: User, e: Event, es: seq<Event>, compare: Compare)
    requires Step(u, e, compare).1.Passed? && SuccessFree(Step(u, e, compare).0, es, compare)
    ensures var start := Step(u, e, compare).0;
            LockedByFives(After(start, es, compare), FailTimes(start, es, compare))
    decreases |es|
  {
    if es != [] {
      var start, init, last := Step(u, e, compare).0, es[..|es| - 1], es[|es| - 1];
      FiveFailuresLock(u, e, init, compare);
      if LastOutcome(start, es, compare).Failed? {
        OneMoreFailure(After(start, init, compare), FailTimes(start, init, compare), last.now);
      }
    }
  }

  // ---------------------------------------------------------------------
  // Challenges and recovery codes.
  // ---------------------------------------------------------------------

  function Issued(es: seq<Event>, nonce: Nonce): nat {
    if es == [] then 0 else Issued(es[..|es| - 1], nonce) + if es[|es| - 1] == Login(nonce) then 1 else 0
  }

  /** Sessions opened by presenting `nonce`. */
  function Sessions(u: User, es: seq<Event>, nonce: Nonce, compare: Compare): nat {
    if es == [] then 0 else
    Sessions(u, es[..|es| - 1], nonce, compare)
    + if es[|es| - 1].Attempt? && es[|es| - 1].nonce == nonce && LastOutcome(u, es, compare).Passed? then 1 else 0
  }

  function Unspent(u: User, nonce: Nonce): nat {
    if u.challenge == Some(nonce) then 1 else 0
  }

  lemma StepSpends(u: User, e: Event, nonce: Nonce, compare: Compare)
    ensures var next := Step(u, e, compare);
            Unspent(next.0, nonce) + (if e.Attempt? && e.nonce == nonce && next.1.Passed? then 1 else 0)
            <= Unspent(u, nonce) + if e == Login(nonce) then 1 else 0
  {
  }

  /** A nonce opens at most as many sessions as it was issued, counting one still unspent. */
  lemma {:induction false} SessionsPerNonce(u: User, es: seq<Event>, nonce: Nonce, compare: Compare)
    requires u.challenge != Some(nonce)
    ensures Sessions(u, es, nonce, compare) + Unspent(After(u, es, compare), nonce) <= Issued(es, nonce)
    decreases |es|
  {
    if es != [] {
      SessionsPerNonce(u, es[..|es| - 1], nonce, compare);
      StepSpends(After(u, es[..|es| - 1], compare), es[|es| - 1], nonce, compare);
    }
  }

  /** Nonces are fresh random values: each one is issued once, so it opens at most one session. */
  lemma ChallengeIsSingleUse(u: User, es: seq<Event>, nonce: Nonce, compare: Compare)
    requires u.challenge != Some(nonce) && Issued(es, nonce) <= 1
    ensures Sessions(u, es, nonce, compare) <= 1
  {
    SessionsPerNonce(u, es, nonce, compare);
  }

  /** Logins by TOTP, each with a challenge of the same nonce. */
  function TotpLogins(n: nat, nonce: Nonce, now: int): seq<Event> {
    if n == 0 then [] else TotpLogins(n - 1, nonce, now) + [Login(nonce)] + [Attempt(nonce, "", true, now)]
  }

  lemma OneMoreEvent(u: User, es: seq<Event>, e: Event, nonce: Nonce, compare: Compare)
    ensures After(u, es + [e], compare) == Step(After(u, es, compare), e, compare).0
    ensures LastOutcome(u, es + [e], compare) == Step(After(u, es, compare), e, compare).1
    ensures Issued(es + [e], nonce) == Issued(es, nonce) + if e == Login(nonce) then 1 else 0
    ensures Sessions(u, es + [e], nonce, compare)
            == Sessions(u, es, nonce, compare)
               + if e.Attempt? && e.nonce == nonce && LastOutcome(u, es + [e], compare).Passed? then 1 else 0
  {
    assert (es + [e])[..|es|] == es;
  }

  /** The bound is reached: every challenge can be used for one session. */
  lemma {:induction false} EveryChallengeOpensOne(u: User, n: nat, nonce: Nonce, now: int, compare: Compare)
    requires u.enabled && !Locked(u, now)
    ensures var es := TotpLogins(n, nonce, now);
            Sessions(u, es, nonce, compare) == n && Issued(es, nonce) == n
    ensures var after := After(u, TotpLogins(n, nonce, now), compare);
            after.enabled && !Locked(after, now)
    decreases n
  {
    if n > 0 {
      var init := TotpLogins(n - 1, nonce, now);
      EveryChallengeOpensOne(u, n - 1, nonce, now, compare);
      OneMoreEvent(u, init, Login(nonce), nonce, compare);
      OneMoreEvent(u, init + [Login(nonce)], Attempt(nonce, "", true, now), nonce, compare);
    }
  }

  /** Logins by recovery code. */
  function RecoveryLogins(u: User, es: seq<Event>, compare: Compare): nat {
    if es == [] then 0 else
    RecoveryLogins(u, es[..|es| - 1], compare) + if LastOutcome(u, es, compare) == Passed(true) then 1 else 0
  }

  /** The codes used up, in the order of the logins: each the first that its token matched. */
  function SpentCodes(u: User, es: seq<Event>, compare: Compare): seq<Hash> {
    if es == [] then [] else
    var before, e := After(u, es[..|es| - 1], compare), es[|es| - 1];
    SpentCodes(u, es[..|es| - 1], compare)
    + if LastOutcome(u, es, compare) == Passed(true)
      then [before.recoveryCodes[FirstCode(e.token, before.recoveryCodes, compare).value]] else []
  }

  /** A login by recovery code uses up the first code that its token matches, and keeps the rest in order. */
  lemma UsedCodeIsRemoved(u: User, e: Event, compare: Compare) returns (before: seq<Hash>, code: Hash, rest: seq<Hash>)
    requires Step(u, e, compare).1 == Passed(true)
    ensures u.recoveryCodes == before + [code] + rest && Step(u, e, compare).0.recoveryCodes == before + rest
    ensures e.Attempt? && compare(e.token, code) && forall c | c in before :: !compare(e.token, c)
    ensures FirstCode(e.token, u.recoveryCodes, compare) == Some(|before|)
  {
    var codes, i := u.recoveryCodes, FirstCode(e.token, u.recoveryCodes, compare).value;
    before, code, rest := codes[..i], codes[i], codes[i + 1..];
    assert codes == before + [code] + rest;
  }

  lemma StepConservesCodes(u: User, e: Event, compare: Compare)
    requires u.enabled && !e.Disable?
    ensures Step(u, e, compare).0.enabled
    ensures Step(u, e, compare).1 != Passed(true) ==> Step(u, e, compare).0.recoveryCodes == u.recoveryCodes
  {
  }

  /** The codes handed out are, while two-factor is enabled, those used up and those in hand, each as often. */
  lemma {:induction false} CodesAreConserved(u: User, es: seq<Event>, compare: Compare)
    requires u.enabled && forall e | e in es :: !e.Disable?
    ensures After(u, es, compare).enabled
    ensures multiset(u.recoveryCodes)
            == multiset(SpentCodes(u, es, compare)) + multiset(After(u, es, compare).recoveryCodes)
    ensures RecoveryLogins(u, es, compare) == |SpentCodes(u, es, compare)|
    decreases |es|
  {
    if es != [] {
      var init, e := es[..|es| - 1], es[|es| - 1];
      assert e in es;
      CodesAreConserved(u, init, compare);
      StepConservesCodes(After(u, init, compare), e, compare);
      if LastOutcome(u, es, compare) == Passed(true) {
        var before, code, rest := UsedCodeIsRemoved(After(u, init, compare), e, compare);
      }
    }
  }

  lemma SizesAdd(all: seq<Hash>, spent: seq<Hash>, left: seq<Hash>)
    requires multiset(all) == multiset(spent) + multiset(left)
    ensures |all| == |spent| + |left|
  {
    assert |multiset(all)| == |all| && |multiset(spent)| == |spent| && |multiset(left)| == |left|;
  }

  /** Until two-factor is disabled, enabling it buys exactly ten recovery logins, used or still in hand. */
  lemma TenRecoveryLoginsPerEnable(u: User, codes: seq<Hash>, es: seq<Event>, compare: Compare)
    requires !u.enabled && |codes| == RECOVERY_CODE_COUNT && forall e | e in es :: !e.Disable?
    ensures var enabled := Step(u, Enable(codes), compare).0;
            RecoveryLogins(enabled, es, compare) + |After(enabled, es, compare).recoveryCodes| == 10
  {
    var enabled := Step(u, Enable(codes), compare).0;
    CodesAreConserved(enabled, es, compare);
    SizesAdd(codes, SpentCodes(enabled, es, compare), After(enabled, es, compare).recoveryCodes);
  }

  /** Disabling takes all codes away, and opens no session until two-factor is enabled again. */
  lemma {:induction false} DisabledOpensNothing(u: User, es: seq<Event>, compare: Compare)
    requires forall e | e in es :: !e.Enable?
    ensures var off := Step(u, Disable, compare).0;
            && (u.enabled ==> off.recoveryCodes == []) && !off.enabled
            && SuccessFree(off, es, compare) && !After(off, es, compare).enabled
    decreases |es|
  {
    if es != [] {
      assert es[|es| - 1] in es;
      DisabledOpensNothing(u, es[..|es| - 1], compare);
    }
  }

  // ----- One code, one login -----

  /** How many of the codes the token matches. */
  function Matching(token: Token, codes: seq<Hash>, compare: Compare): nat {
    if codes == [] then 0
    else Matching(token, codes[..|codes| - 1], compare) + if compare(token, codes[|codes| - 1]) then 1 else 0
  }

  /** Logins by recovery code with this very token. */
  function LoginsBy(u: User, es: seq<Event>, token: Token, compare: Compare): nat {
    if es == [] then 0 else
    LoginsBy(u, es[..|es| - 1], token, compare)
    + if LastOutcome(u, es, compare) == Passed(true) && es[|es| - 1].token == token then 1 else 0
  }

  /** Matching codes handed out by an event. */
  function HandedOut(u: User, e: Event, token: Token, compare: Compare): nat {
    if e.Enable? && !u.enabled then Matching(token, e.codes, compare) else 0
  }

  function AllHandedOut(u: User, es: seq<Event>, token: Token, compare: Compare): nat {
    if es == [] then 0 else
    AllHandedOut(u, es[..|es| - 1], token, compare)
    + HandedOut(After(u, es[..|es| - 1], compare), es[|es| - 1], token, compare)
  }

  lemma {:induction false} MatchingOfConcat(token: Token, codes: seq<Hash>, more: seq<Hash>, compare: Compare)
    ensures Matching(token, codes + more, compare) == Matching(token, codes, compare) + Matching(token, more, compare)
    decreases |more|
  {
    if more == [] {
      assert codes + more == codes;
    } else {
      MatchingOfConcat(token, codes, more[..|more| - 1], compare);
      assert (codes + more)[..|codes + more| - 1] == codes + more[..|more| - 1];
    }
  }

  lemma MatchingWithout(token: Token, codes: seq<Hash>, i: nat, compare: Compare)
    requires i < |codes|
    ensures Matching(token, codes, compare)
            == Matching(token, RemoveAt(codes, i), compare) + if compare(token, codes[i]) then 1 else 0
  {
    var before, one, after := codes[..i], [codes[i]], codes[i + 1..];
    assert codes == before + one + after && one[..0] == [];
    MatchingOfConcat(token, before + one, after, compare);
    MatchingOfConcat(token, before, one, compare);
    MatchingOfConcat(token, before, after, compare);
  }

  lemma StepSpendsMatching(u: User, e: Event, token: Token, compare: Compare)
    ensures var next := Step(u, e, compare);
            Matching(token, next.0.recoveryCodes, compare)
            + (if next.1 == Passed(true) && e.token == token then 1 else 0)
            <= Matching(token, u.recoveryCodes, compare) + HandedOut(u, e, token, compare)
  {
    if Step(u, e, compare).1 == Passed(true) {
      MatchingWithout(token, u.recoveryCodes, FirstCode(e.token, u.recoveryCodes, compare).value, compare);
    }
  }

  /**
   * In every run, through any enabling and disabling, a token logs in at most as often as codes that it
   * matches were handed out, counting those still in hand.
   */
  lemma {:induction false} TokenSpendsItsCodes(u: User, es: seq<Event>, token: Token, compare: Compare)
    ensures LoginsBy(u, es, token, compare) + Matching(token, After(u, es, compare).recoveryCodes, compare)
            <= Matching(token, u.recoveryCodes, compare) + AllHandedOut(u, es, token, compare)
    decreases |es|
  {
    if es != [] {
      TokenSpendsItsCodes(u, es[..|es| - 1], token, compare);
      StepSpendsMatching(After(u, es[..|es| - 1], compare), es[|es| - 1], token, compare);
    }
  }

  /** A token that matches one of the codes handed out only opens at most one session until two-factor is disabled. */
  lemma CodeLogsInOnce(u: User, codes: seq<Hash>, es: seq<Event>, token: Token, compare: Compare)
    requires !u.enabled && Matching(token, codes, compare) <= 1 && forall e | e in es :: !e.Disable?
    ensures LoginsBy(Step(u, Enable(codes), compare).0, es, token, compare) <= 1
  {
    var enabled := Step(u, Enable(codes), compare).0;
    TokenSpendsItsCodes(enabled, es, token, compare);
    NothingHandedOut(enabled, es, token, compare);
  }

  lemma OneMoreLogin(u: User, es: seq<Event>, e: Event, token: Token, compare: Compare)
    ensures LoginsBy(u, es + [e], token, compare)
            == LoginsBy(u, es, token, compare)
               + if Step(After(u, es, compare), e, compare).1 == Passed(true) && e.token == token then 1 else 0
  {
    assert (es + [e])[..|es|] == es;
  }

  /** A challenge, and an attempt with `token`. */
  function LoginWith(nonce: Nonce, token: Token, now: int): seq<Event> {
    [] + [Login(nonce)] + [Attempt(nonce, token, false, now)]
  }

  lemma OneAttempt(u: User, token: Token, nonce: Nonce, now: int, compare: Compare)
    ensures var es := LoginWith(nonce, token, now);
            && (After(u, es, compare), LastOutcome(u, es, compare))
               == Verify(u.(challenge := Some(nonce)), token, false, now, compare)
            && LoginsBy(u, es, token, compare) == if LastOutcome(u, es, compare) == Passed(true) then 1 else 0
  {
    var none: seq<Event>, e := [], Attempt(nonce, token, false, now);
    OneMoreEvent(u, none, Login(nonce), nonce, compare);
    OneMoreEvent(u, none + [Login(nonce)], e, nonce, compare);
    OneMoreLogin(u, none, Login(nonce), token, compare);
    OneMoreLogin(u, none + [Login(nonce)], e, token, compare);
  }

  /** A code that its token alone matches logs in once: the same token then fails. */
  lemma CodeWorksOnce(u: User, i: nat, token: Token, nonce: Nonce, now: int, compare: Compare)
    requires u.enabled && !Locked(u, now) && i < |u.recoveryCodes|
    requires forall k | 0 <= k < |u.recoveryCodes| :: compare(token, u.recoveryCodes[k]) <==> k == i
    ensures var es := LoginWith(nonce, token, now);
            var next := After(u, es, compare);
            && LastOutcome(u, es, compare) == Passed(true) && LoginsBy(u, es, token, compare) == 1
            && next.recoveryCodes == u.recoveryCodes[..i] + u.recoveryCodes[i + 1..]
            && LastOutcome(next, es, compare) == Failed
  {
    var found, left := FirstCode(token, u.recoveryCodes, compare), u.recoveryCodes[..i] + u.recoveryCodes[i + 1..];
    assert compare(token, u.recoveryCodes[i]);
    assert found == Some(i);
    OneAttempt(u, token, nonce, now, compare);
    var next := Verify(u.(challenge := Some(nonce)), token, false, now, compare).0;
    forall k | 0 <= k < |left| ensures !compare(token, left[k]) {
      assert left[k] == u.recoveryCodes[if k < i then k else k + 1];
    }
    assert next.recoveryCodes == left && FirstCode(token, left, compare) == None;
    OneAttempt(next, token, nonce, now, compare);
  }

  /** While two-factor is enabled no codes are handed out. */
  lemma {:induction false} NothingHandedOut(u: User, es: seq<Event>, token: Token, compare: Compare)
    requires u.enabled && forall e | e in es :: !e.Disable?
    ensures After(u, es, compare).enabled && AllHandedOut(u, es, token, compare) == 0
    decreases |es|
  {
    if es != [] {
      assert es[|es| - 1] in es;
      NothingHandedOut(u, es[..|es| - 1], token, compare);
      StepConservesCodes(After(u, es[..|es| - 1], compare), es[|es| - 1], compare);
    }
  }
}
