/** Choosing an upstream target: round robin, weighted and failover. */
module LoadBalancer {
  import opened Options
  import opened Division
  import opened Seqs
  import opened StableSort

  datatype Strategy = RoundRobin | Weighted | Failover

  /** The shared index was incremented, its row is gone, or the update failed. */
  datatype Update = Stored | RowMissing | Failed

  datatype Target = Target(id: string, url: string, weight: nat, priority: int, isHealthy: bool)

  function Healthy(targets: seq<Target>): (healthy: seq<Target>)
    ensures forall t :: t in healthy <==> t in targets && t.isHealthy
  {
    if targets == [] then []
    else (if targets[0].isHealthy then [targets[0]] else []) + Healthy(targets[1..])
  }

  lemma HealthyOne(t: Target)
    ensures Healthy([t]) == if t.isHealthy then [t] else []
  {
    assert [t][1..] == [];
  }

  /** The healthy targets of two lists are those of the first and then those of the second, each one as often. */
  lemma {:induction false} HealthyKeepsOrder(targets: seq<Target>, more: seq<Target>)
    ensures Healthy(targets + more) == Healthy(targets) + Healthy(more)
    decreases |targets|
  {
    if targets == [] {
      assert targets + more == more;
    } else {
      HealthyKeepsOrder(targets[1..], more);
      HealthyCons(targets[0], targets[1..]);
      HealthyCons(targets[0], targets[1..] + more);
      HeadTail(targets);
      Associate([targets[0]], targets[1..], more);
      Associate(Healthy([targets[0]]), Healthy(targets[1..]), Healthy(more));
    }
  }

  lemma HealthyCons(t: Target, rest: seq<Target>)
    ensures Healthy([t] + rest) == Healthy([t]) + Healthy(rest)
  {
    HealthyOne(t);
    assert ([t] + rest)[1..] == rest;
  }

  /** Targets are rows of a table, each with an id of its own. */
  predicate UniqueIds(targets: seq<Target>) {
    forall i, j | 0 <= i < j < |targets| :: targets[i].id != targets[j].id
  }

  lemma {:induction false} HealthyIsUnique(targets: seq<Target>)
    requires UniqueIds(targets)
    ensures UniqueIds(Healthy(targets))
    decreases |targets|
  {
    if targets != [] {
      var rest := targets[1..];
      assert forall i | 0 <= i < |rest| :: rest[i] == targets[i + 1];
      HealthyIsUnique(rest);
      forall j | 0 <= j < |Healthy(rest)| ensures Healthy(rest)[j].id != targets[0].id {
        assert Healthy(rest)[j] in rest;
      }
    }
  }

  /** The index a selection takes from the shared one and the replica's own, and what these are afterwards. */
  function Index(shared: nat, local: nat, update: Update): nat {
    match update
    case Stored => shared + 1
    case RowMissing => 0
    case Failed => local
  }

  function SharedAfter(shared: nat, update: Update): nat {
    if update == Stored then shared + 1 else shared
  }

  function LocalAfter(local: nat, update: Update): nat {
    if update == Failed then local + 1 else local
  }

  /** The shared index of a route, and the own index of each replica. */
  datatype Fleet = Fleet(shared: nat, locals: seq<nat>)

  datatype Selection = Selection(replica: nat, update: Update)

  function Step(f: Fleet, s: Selection): (r: Fleet)
    requires s.replica < |f.locals|
    ensures |r.locals| == |f.locals|
  {
    Fleet(SharedAfter(f.shared, s.update), f.locals[s.replica := LocalAfter(f.locals[s.replica], s.update)])
  }

  /** The target a round-robin selection hands out: the one at the index it takes, counted round and round. */
  function HandedOut(f: Fleet, s: Selection, healthy: seq<Target>): Target
    requires s.replica < |f.locals| && healthy != []
  {
    healthy[Index(f.shared, f.locals[s.replica], s.update) % |healthy|]
  }

  /** The route's shared index, and this replica's own for when the shared one cannot be updated. */
  class Balancer {
    var lbRrIndex: nat
    var localIndex: nat

    function Value(): Fleet
      reads this
    {
      Fleet(lbRrIndex, [localIndex])
    }

    constructor ()
      ensures Value() == Fleet(0, [0])
    {
      lbRrIndex, localIndex := 0, 0;
    }

    /** `update`: what becomes of the shared update. `random`: the draw of Math.random(). */
    method SelectTarget(strategy: Strategy, targets: seq<Target>, update: Update, random: real)
      returns (picked: Option<Target>)
      requires 0.0 <= random < 1.0 && forall t | t in targets :: t.weight >= 1
      modifies this
      ensures picked.None? <==> Healthy(targets) == []
      ensures picked.Some? ==> picked.value in targets && picked.value.isHealthy
      ensures picked.Some? && strategy == RoundRobin ==>
                && picked.value == HandedOut(old(Value()), Selection(0, update), Healthy(targets))
                && Value() == Step(old(Value()), Selection(0, update))
      ensures picked.None? || strategy != RoundRobin ==> Value() == old(Value())
      ensures picked.Some? && strategy == Weighted ==> IsWeightedPick(Healthy(targets), picked.value, random)
      ensures picked.Some? && strategy == Failover ==> IsFirstBest(Healthy(targets), picked.value)
    {
      var healthy := Healthy(targets);
      if |healthy| == 0 { return None; }
      assert healthy[0] in healthy;
      match strategy
      case RoundRobin =>
        var i := NextIndex(|healthy|, update);
        assert healthy[i] in healthy;
        return Some(healthy[i]);
      case Weighted =>
        var t := PickWeighted(healthy, random);
        return Some(t);
      case Failover =>
        var t := PickFailover(healthy);
        return Some(t);
    }

    method NextIndex(k: nat, update: Update) returns (i: nat)
      requires k > 0
      modifies this
      ensures i < k && i == Index(old(lbRrIndex), old(localIndex), update) % k
      ensures lbRrIndex == SharedAfter(old(lbRrIndex), update) && localIndex == LocalAfter(old(localIndex), update)
    {
      var idx: nat;
      match update {
        case Stored =>
          lbRrIndex := lbRrIndex + 1;
          idx := lbRrIndex;
        case RowMissing =>
          idx := 0;
        case Failed =>
          idx := localIndex;
          localIndex := idx + 1;
      }
      return idx % k;
    }
  }

  // ---------------------------------------------------------------------
  // Round robin is fair.
  // ---------------------------------------------------------------------

  /** How many of the `n` indices after `start` fall to target `i` of `k`. */
  function Picks(start: int, n: nat, k: nat, i: nat): nat
    requires k > 0
  {
    if n == 0 then 0 else Picks(start, n - 1, k, i) + if (start + n) % k == i then 1 else 0
  }

  /** The quotient of `x - i` grows exactly when `x` is congruent to `i`. */
  lemma QuotientStep(x: int, k: int, i: int)
    requires 0 <= i < k
    ensures (x - i) / k - (x - 1 - i) / k == if x % k == i then 1 else 0
  {
    var q, r := (x - 1 - i) / k, (x - 1 - i) % k;
    assert x - 1 - i == q * k + r;
    if r == k - 1 {
      Quotient(x - i, k, q + 1, 0);
      Quotient(x, k, q + 1, i);
      assert (q + 1) * k == q * k + k;
    } else {
      Quotient(x - i, k, q, r + 1);
      if r + 1 + i < k {
        Quotient(x, k, q, r + 1 + i);
      } else {
        Quotient(x, k, q + 1, r + 1 + i - k);
        assert (q + 1) * k == q * k + k;
      }
    }
  }

  lemma {:induction false} PicksClosedForm(start: int, n: nat, k: nat, i: nat)
    requires i < k
    ensures Picks(start, n, k, i) == (start + n - i) / k - (start - i) / k
    decreases n
  {
    if n > 0 {
      PicksClosedForm(start, n - 1, k, i);
      QuotientStep(start + n, k, i);
    }
  }

  lemma CeilingQuotient(n: nat, k: nat)
    requires k > 0
    ensures (n + k - 1) / k == n / k + if n % k == 0 then 0 else 1
  {
    var q, r := n / k, n % k;
    assert n == q * k + r;
    if r == 0 {
      Quotient(n + k - 1, k, q, k - 1);
    } else {
      assert (q + 1) * k == q * k + k;
      Quotient(n + k - 1, k, q + 1, r - 1);
    }
  }

  lemma QuotientOfSum(a: int, n: nat, k: nat)
    requires k > 0
    ensures (a + n) / k - a / k == n / k + if a % k + n % k < k then 0 else 1
  {
    var qa, ra, qn, rn := a / k, a % k, n / k, n % k;
    assert a == qa * k + ra && n == qn * k + rn;
    if ra + rn < k {
      assert (qa + qn) * k == qa * k + qn * k;
      Quotient(a + n, k, qa + qn, ra + rn);
    } else {
      assert (qa + qn + 1) * k == qa * k + qn * k + k;
      Quotient(a + n, k, qa + qn + 1, ra + rn - k);
    }
  }

  /** `x` is n/k, rounded down or up. */
  predicate Rounded(x: int, n: nat, k: nat)
    requires k > 0
  {
    n / k <= x <= (n + k - 1) / k
  }

  /** Each of `k` targets gets n/k of `n` consecutive indices, rounded down or up. */
  lemma PicksAreFair(start: int, n: nat, k: nat, i: nat)
    requires i < k
    ensures Rounded(Picks(start, n, k, i), n, k)
  {
    PicksClosedForm(start, n, k, i);
    QuotientOfSum(start - i, n, k);
    CeilingQuotient(n, k);
  }

  // ----- Runs of selections on any number of replicas -----

  predicate OnFleet(f: Fleet, run: seq<Selection>) {
    forall s | s in run :: s.replica < |f.locals|
  }

  /** The fleet after the selections of `run`, in the order they reach the shared index. */
  function After(f: Fleet, run: seq<Selection>): (r: Fleet)
    requires OnFleet(f, run)
    ensures |r.locals| == |f.locals|
  {
    if run == [] then f else
    var last := run[|run| - 1];
    assert last in run;
    Step(After(f, run[..|run| - 1]), last)
  }

  /** The targets that the selections of `run` hand out, one after the other. */
  function Handed(f: Fleet, run: seq<Selection>, healthy: seq<Target>): (handed: seq<Target>)
    requires OnFleet(f, run) && healthy != []
    ensures |handed| == |run|
  {
    if run == [] then [] else
    var init, last := run[..|run| - 1], run[|run| - 1];
    assert last in run;
    Handed(f, init, healthy) + [HandedOut(After(f, init), last, healthy)]
  }

  /** How often `run` hands out the target `t`. */
  function Selected(f: Fleet, run: seq<Selection>, healthy: seq<Target>, t: Target): nat
    requires OnFleet(f, run) && healthy != []
  {
    multiset(Handed(f, run, healthy))[t]
  }

  function CountOf(run: seq<Selection>, update: Update): nat {
    if run == [] then 0 else CountOf(run[..|run| - 1], update) + if run[|run| - 1].update == update then 1 else 0
  }

  /** Failed updates of one replica. */
  function FailedOn(run: seq<Selection>, r: nat): nat {
    if run == [] then 0 else FailedOn(run[..|run| - 1], r) + if run[|run| - 1] == Selection(r, Failed) then 1 else 0
  }

  lemma {:induction false} AfterRun(f: Fleet, run: seq<Selection>, r: nat)
    requires OnFleet(f, run) && r < |f.locals|
    ensures After(f, run).shared == f.shared + CountOf(run, Stored)
    ensures After(f, run).locals[r] == f.locals[r] + FailedOn(run, r)
    decreases |run|
  {
    if run != [] {
      assert run[|run| - 1] in run;
      AfterRun(f, run[..|run| - 1], r);
    }
  }

  /** Selections of `i` by the first `n` replicas while their updates failed. */
  function PickedLocally(f: Fleet, run: seq<Selection>, k: nat, i: nat, n: nat): nat
    requires n <= |f.locals| && k > 0
  {
    if n == 0 then 0
    else PickedLocally(f, run, k, i, n - 1) + Picks(f.locals[n - 1] as int - 1, FailedOn(run, n - 1), k, i)
  }

  /** One more selection counts locally exactly if its update failed, on its own replica. */
  lemma {:induction false} LocalStep(f: Fleet, run: seq<Selection>, s: Selection, k: nat, i: nat, n: nat)
    requires n <= |f.locals| && k > 0 && s.replica < |f.locals|
    ensures PickedLocally(f, run + [s], k, i, n) == PickedLocally(f, run, k, i, n)
            + if s.update == Failed && s.replica < n && (f.locals[s.replica] + FailedOn(run, s.replica)) % k == i
                then 1 else 0
    decreases n
  {
    if n > 0 {
      LocalStep(f, run, s, k, i, n - 1);
      FailedAppend(run, s, n - 1);
      NextPick(f.locals[n - 1] as int - 1, FailedOn(run, n - 1), k, i);
    }
  }

  lemma FailedAppend(run: seq<Selection>, s: Selection, r: nat)
    ensures FailedOn(run + [s], r) == FailedOn(run, r) + if s == Selection(r, Failed) then 1 else 0
  {
    assert (run + [s])[..|run|] == run;
  }

  lemma NextPick(start: int, n: nat, k: nat, i: nat)
    requires k > 0
    ensures Picks(start, n + 1, k, i) == Picks(start, n, k, i) + if (start + n + 1) % k == i then 1 else 0
  {
  }

  /** Selections of `i` counted by rounds: the shared one, each replica's own, and missing rows. */
  function InRounds(f: Fleet, run: seq<Selection>, k: nat, i: nat): nat
    requires k > 0
  {
    Picks(f.shared, CountOf(run, Stored), k, i) + PickedLocally(f, run, k, i, |f.locals|)
    + if i == 0 then CountOf(run, RowMissing) else 0
  }

  /** Whose turn it is among `k` targets when `s` comes after `run`. */
  function Turn(f: Fleet, run: seq<Selection>, s: Selection, k: nat): (i: nat)
    requires s.replica < |f.locals| && k > 0
    ensures i < k
  {
    match s.update
    case Stored => (f.shared + CountOf(run, Stored) + 1) % k
    case RowMissing => 0
    case Failed => (f.locals[s.replica] + FailedOn(run, s.replica)) % k
  }

  /**
   * In every run on any replicas the targets are handed out in their turn: those of the shared index
   * one after the other in the order of the list, from the one behind the index it starts with; those of a
   * replica that fell back likewise from its own index; the first one for a missing row.
   */
  lemma {:induction false} HandedInTurn(f: Fleet, run: seq<Selection>, healthy: seq<Target>, j: nat)
    requires OnFleet(f, run) && healthy != [] && j < |run|
    ensures run[j] in run && Handed(f, run, healthy)[j] == healthy[Turn(f, run[..j], run[j], |healthy|)]
    decreases |run|
  {
    var init, last := run[..|run| - 1], run[|run| - 1];
    assert last in run;
    if j < |init| {
      HandedInTurn(f, init, healthy, j);
      assert init[..j] == run[..j];
    } else {
      AfterRun(f, init, last.replica);
      assert run[..j] == init && 0 % |healthy| == 0;
    }
  }

  lemma SelectedStep(f: Fleet, run: seq<Selection>, s: Selection, healthy: seq<Target>, i: nat)
    requires OnFleet(f, run) && OnFleet(f, run + [s]) && s.replica < |f.locals|
    requires UniqueIds(healthy) && i < |healthy|
    ensures Selected(f, run + [s], healthy, healthy[i])
            == Selected(f, run, healthy, healthy[i]) + if Turn(f, run, s, |healthy|) == i then 1 else 0
  {
    var next := HandedOut(After(f, run), s, healthy);
    assert (run + [s])[..|run|] == run && (run + [s])[|run|] == s;
    HandedInTurn(f, run + [s], healthy, |run|);
    assert Handed(f, run + [s], healthy) == Handed(f, run, healthy) + [next];
    var j := Turn(f, run, s, |healthy|);
    assert next == healthy[j];
    if i < j { assert healthy[i].id != healthy[j].id; } else if j < i { assert healthy[j].id != healthy[i].id; }
  }

  lemma RoundsStep(f: Fleet, run: seq<Selection>, s: Selection, k: nat, i: nat)
    requires s.replica < |f.locals| && i < k
    ensures InRounds(f, run + [s], k, i) == InRounds(f, run, k, i) + if Turn(f, run, s, k) == i then 1 else 0
  {
    LocalStep(f, run, s, k, i, |f.locals|);
    assert (run + [s])[..|run|] == run;
    assert CountOf(run + [s], Stored) == CountOf(run, Stored) + if s.update == Stored then 1 else 0;
    assert CountOf(run + [s], RowMissing) == CountOf(run, RowMissing) + if s.update == RowMissing then 1 else 0;
  }

  /** Every selection is one of the shared round, of a replica's own round, or of a missing row. */
  lemma {:induction false} SelectedInRounds(f: Fleet, run: seq<Selection>, healthy: seq<Target>, i: nat)
    requires OnFleet(f, run) && UniqueIds(healthy) && i < |healthy|
    ensures Selected(f, run, healthy, healthy[i]) == InRounds(f, run, |healthy|, i)
    decreases |run|
  {
    var k := |healthy|;
    if run == [] {
      NoneLocally(f, k, i, |f.locals|);
    } else {
      var init, last := run[..|run| - 1], run[|run| - 1];
      assert last in run && run == init + [last];
      SelectedInRounds(f, init, healthy, i);
      SelectedStep(f, init, last, healthy, i);
      RoundsStep(f, init, last, k, i);
    }
  }

  lemma {:induction false} NoneLocally(f: Fleet, k: nat, i: nat, n: nat)
    requires n <= |f.locals| && k > 0
    ensures PickedLocally(f, [], k, i, n) == 0
    decreases n
  {
    if n > 0 { NoneLocally(f, k, i, n - 1); }
  }

  // ----- Fairness -----

  /**
   * While the shared update succeeds, any N consecutive selections, on any replicas and from any
   * index, hand out each of k healthy targets N/k times, rounded down or up.
   */
  lemma RoundRobinIsFair(f: Fleet, run: seq<Selection>, targets: seq<Target>, t: Target)
    requires OnFleet(f, run) && forall s | s in run :: s.update == Stored
    requires UniqueIds(targets) && t in targets && t.isHealthy
    ensures var healthy := Healthy(targets);
            var k := |healthy|;
            healthy != [] && Rounded(multiset(Handed(f, run, healthy))[t], |run|, k)
  {
    var healthy := Healthy(targets);
    HealthyIsUnique(targets);
    assert t in healthy;
    var i :| 0 <= i < |healthy| && healthy[i] == t;
    SelectedInRounds(f, run, healthy, i);
    StoredRoundsAreFair(f, run, |healthy|, i);
  }

  lemma StoredRoundsAreFair(f: Fleet, run: seq<Selection>, k: nat, i: nat)
    requires OnFleet(f, run) && i < k && forall s | s in run :: s.update == Stored
    ensures Rounded(InRounds(f, run, k, i), |run|, k)
  {
    AllStored(f, run, k, i, |f.locals|);
    PicksAreFair(f.shared, |run|, k, i);
  }

  lemma {:induction false} OnlyStored(run: seq<Selection>, r: nat)
    requires forall s | s in run :: s.update == Stored
    ensures CountOf(run, Stored) == |run| && CountOf(run, RowMissing) == 0 && FailedOn(run, r) == 0
    decreases |run|
  {
    if run != [] {
      assert run[|run| - 1] in run;
      OnlyStored(run[..|run| - 1], r);
    }
  }

  lemma {:induction false} AllStored(f: Fleet, run: seq<Selection>, k: nat, i: nat, n: nat)
    requires n <= |f.locals| && k > 0 && forall s | s in run :: s.update == Stored
    ensures CountOf(run, Stored) == |run| && CountOf(run, RowMissing) == 0 && PickedLocally(f, run, k, i, n) == 0
    decreases n
  {
    OnlyStored(run, if n > 0 then n - 1 else 0);
    if n > 0 { AllStored(f, run, k, i, n - 1); }
  }

  /** Replicas, of the first `n`, on which an update failed, and how often that was. */
  function Failing(run: seq<Selection>, n: nat): nat {
    if n == 0 then 0 else Failing(run, n - 1) + if FailedOn(run, n - 1) > 0 then 1 else 0
  }

  /** The replicas, of the first `n`, that fell back to their own index at least once. */
  function FellBack(run: seq<Selection>, n: nat): set<nat> {
    set r: nat | r < n && Selection(r, Failed) in run
  }

  lemma {:induction false} FailedOnIff(run: seq<Selection>, r: nat)
    ensures FailedOn(run, r) > 0 <==> Selection(r, Failed) in run
    decreases |run|
  {
    if run != [] {
      FailedOnIff(run[..|run| - 1], r);
      InitLast(run);
    }
  }

  lemma {:induction false} FailingIsFellBack(run: seq<Selection>, n: nat)
    ensures Failing(run, n) == |FellBack(run, n)|
    decreases n
  {
    if n > 0 {
      FailingIsFellBack(run, n - 1);
      FailedOnIff(run, n - 1);
      assert FellBack(run, n) == FellBack(run, n - 1) + if FailedOn(run, n - 1) > 0 then {n - 1} else {};
    } else {
      assert FellBack(run, 0) == {};
    }
  }

  function FailedBelow(run: seq<Selection>, n: nat): nat {
    if n == 0 then 0 else FailedBelow(run, n - 1) + FailedOn(run, n - 1)
  }

  /** `x` times `k` is less than a round away from `n`, for each of `rounds` rounds. */
  predicate Within(x: int, n: int, k: nat, rounds: nat) {
    -(k - 1) * rounds <= k * x - n <= (k - 1) * rounds
  }

  /** `x` picks of `k` targets in `n` selections are off the even share n/k by less than the rounds. */
  lemma WithinMeans(x: int, n: int, k: nat, rounds: nat)
    requires k > 0
    ensures Within(x, n, k, rounds) <==> k * x <= n + (k - 1) * rounds && n <= k * x + (k - 1) * rounds
  {
  }

  lemma WithinSum(x: int, n: int, r: nat, y: int, m: int, s: nat, k: nat)
    requires k > 0 && Within(x, n, k, r) && Within(y, m, k, s)
    ensures Within(x + y, n + m, k, r + s)
  {
    assert (k - 1) * (r + s) == (k - 1) * r + (k - 1) * s;
    assert k * (x + y) == k * x + k * y;
  }

  lemma PicksWithin(start: int, n: nat, k: nat, i: nat)
    requires i < k
    ensures Within(Picks(start, n, k, i), n, k, if n > 0 then 1 else 0)
  {
    PicksAreFair(start, n, k, i);
    if n > 0 { RoundedWithin(Picks(start, n, k, i), n, k); }
  }

  lemma RoundedWithin(x: nat, n: nat, k: nat)
    requires k > 0 && Rounded(x, n, k)
    ensures Within(x, n, k, 1)
  {
    CeilingQuotient(n, k);
    var q := n / k;
    assert n == k * q + n % k;
    assert k * (q + 1) == k * q + k;
    assert x == q || x == q + 1;
  }

  lemma {:induction false} LocallyWithin(f: Fleet, run: seq<Selection>, k: nat, i: nat, n: nat)
    requires n <= |f.locals| && i < k
    ensures Within(PickedLocally(f, run, k, i, n), FailedBelow(run, n), k, Failing(run, n))
    decreases n
  {
    if n > 0 {
      LocallyWithin(f, run, k, i, n - 1);
      var failed := FailedOn(run, n - 1);
      PicksWithin(f.locals[n - 1] as int - 1, failed, k, i);
      WithinSum(PickedLocally(f, run, k, i, n - 1), FailedBelow(run, n - 1), Failing(run, n - 1),
                Picks(f.locals[n - 1] as int - 1, failed, k, i), failed, if failed > 0 then 1 else 0, k);
    }
  }

  lemma MissingWithin(missing: nat, k: nat, i: nat)
    requires i < k
    ensures Within(if i == 0 then missing else 0, missing, k, missing)
  {
    assert k * missing - missing == (k - 1) * missing;
    if i > 0 { AtLeastOnce(k - 1, missing); }
  }

  lemma AtLeastOnce(d: nat, m: nat)
    requires d >= 1
    ensures m <= d * m
  {
    assert d * m == (d - 1) * m + m;
    assert (d - 1) * m >= 0;
  }

  lemma {:induction false} EverySelectionCounts(f: Fleet, run: seq<Selection>)
    requires OnFleet(f, run)
    ensures |run| == CountOf(run, Stored) + FailedBelow(run, |f.locals|) + CountOf(run, RowMissing)
    decreases |run|
  {
    if run == [] {
      NoFailures(|f.locals|);
    } else {
      var init, last := run[..|run| - 1], run[|run| - 1];
      assert last in run && run == init + [last];
      EverySelectionCounts(f, init);
      FailedStep(init, last, |f.locals|);
    }
  }

  lemma {:induction false} NoFailures(n: nat)
    ensures FailedBelow([], n) == 0
  {
    if n > 0 { NoFailures(n - 1); }
  }

  lemma {:induction false} FailedStep(run: seq<Selection>, s: Selection, n: nat)
    ensures FailedBelow(run + [s], n) == FailedBelow(run, n) + if s.update == Failed && s.replica < n then 1 else 0
    decreases n
  {
    if n > 0 {
      FailedStep(run, s, n - 1);
      assert (run + [s])[..|run|] == run;
    }
  }

  /**
   * With failing updates and missing rows mixed in, the selections of a target stay within one round
   * of the even share for the shared index, one for each replica that fell back to its own index, and
   * one for each missing row.
   */
  lemma RoundRobinStaysClose(f: Fleet, run: seq<Selection>, targets: seq<Target>, t: Target)
    requires OnFleet(f, run) && UniqueIds(targets) && t in targets && t.isHealthy
    ensures var healthy := Healthy(targets);
            && healthy != []
            && Within(multiset(Handed(f, run, healthy))[t], |run|, |healthy|,
                      1 + |FellBack(run, |f.locals|)| + CountOf(run, RowMissing))
  {
    var healthy := Healthy(targets);
    HealthyIsUnique(targets);
    assert t in healthy;
    var i :| 0 <= i < |healthy| && healthy[i] == t;
    SelectedStaysClose(f, run, healthy, i);
  }

  lemma SelectedStaysClose(f: Fleet, run: seq<Selection>, healthy: seq<Target>, i: nat)
    requires OnFleet(f, run) && UniqueIds(healthy) && i < |healthy|
    ensures var picks := multiset(Handed(f, run, healthy))[healthy[i]];
            Within(picks, |run|, |healthy|, 1 + |FellBack(run, |f.locals|)| + CountOf(run, RowMissing))
  {
    SelectedInRounds(f, run, healthy, i);
    RoundsStayClose(f, run, |healthy|, i);
  }

  lemma RoundsStayClose(f: Fleet, run: seq<Selection>, k: nat, i: nat)
    requires OnFleet(f, run) && i < k
    ensures Within(InRounds(f, run, k, i), |run|, k, 1 + |FellBack(run, |f.locals|)| + CountOf(run, RowMissing))
  {
    var stored, missing := CountOf(run, Stored), CountOf(run, RowMissing);
    var locally, failing := PickedLocally(f, run, k, i, |f.locals|), Failing(run, |f.locals|);
    FailingIsFellBack(run, |f.locals|);
    EverySelectionCounts(f, run);
    PicksWithin(f.shared, stored, k, i);
    LocallyWithin(f, run, k, i, |f.locals|);
    MissingWithin(missing, k, i);
    var shared, rest := Picks(f.shared, stored, k, i), if i == 0 then missing else 0;
    WithinMore(shared, stored, k, if stored > 0 then 1 else 0);
    WithinSum(shared, stored, 1, locally, FailedBelow(run, |f.locals|), failing, k);
    WithinSum(shared + locally, stored + FailedBelow(run, |f.locals|), 1 + failing, rest, missing, missing, k);
  }

  lemma WithinMore(x: int, n: int, k: nat, rounds: nat)
    requires k > 0 && rounds <= 1 && Within(x, n, k, rounds)
    ensures Within(x, n, k, 1)
  {
  }

  // ---------------------------------------------------------------------
  // Weighted choice.
  // ---------------------------------------------------------------------

  /** Weight of the first `n` targets. */
  function Cumulative(targets: seq<Target>, n: nat): nat
    requires n <= |targets|
  {
    if n == 0 then 0 else Cumulative(targets, n - 1) + targets[n - 1].weight
  }

  function Total(targets: seq<Target>): nat {
    Cumulative(targets, |targets|)
  }

  /** The draw lies in target `i`'s stretch, which is as long as its weight; zero belongs to the first. */
  predicate Holds(targets: seq<Target>, i: nat, draw: real) {
    && i < |targets|
    && (Cumulative(targets, i) as real < draw <= Cumulative(targets, i) as real + targets[i].weight as real
        || (i == 0 && draw == 0.0))
  }

  predicate IsWeightedPick(targets: seq<Target>, t: Target, random: real) {
    exists i | 0 <= i < |targets| :: targets[i] == t && Holds(targets, i, random * Total(targets) as real)
  }

  method PickWeighted(targets: seq<Target>, random: real) returns (t: Target)
    requires targets != [] && 0.0 <= random < 1.0 && forall t | t in targets :: t.weight >= 1
    ensures t in targets && IsWeightedPick(targets, t, random)
  {
    var totalWeight := Sum(targets);
    BelowTotal(random, totalWeight);
    var i := WalkWeights(targets, random * totalWeight as real);
    t := targets[i];
    assert Holds(targets, i, random * Total(targets) as real);
  }

  /** The loop that spends the draw on one weight after the other. */
  method WalkWeights(targets: seq<Target>, draw: real) returns (i: nat)
    requires 0.0 <= draw < Total(targets) as real && forall t | t in targets :: t.weight >= 1
    ensures i < |targets| && Holds(targets, i, draw)
  {
    var random := draw;
    i := 0;
    for n := 0 to |targets|
      invariant random == draw - Cumulative(targets, n) as real
      invariant n > 0 ==> random > 0.0
    {
      assert targets[n] in targets;
      random := random - targets[n].weight as real;
      if random <= 0.0 { return n; }
    }
    assert false; // the fallback to the last target is never reached
  }

  lemma BelowTotal(random: real, total: nat)
    requires 0.0 <= random < 1.0 && total > 0
    ensures 0.0 <= random * total as real < total as real
  {
  }

  method Sum(targets: seq<Target>) returns (sum: nat)
    requires forall t | t in targets :: t.weight >= 1
    ensures sum == Total(targets) && (targets != [] ==> sum > 0)
  {
    sum := 0;
    for n := 0 to |targets|
      invariant sum == Cumulative(targets, n) && sum >= n
    {
      assert targets[n] in targets;
      sum := sum + targets[n].weight;
    }
  }

  lemma {:induction false} CumulativeGrows(targets: seq<Target>, i: nat, j: nat)
    requires i <= j <= |targets|
    ensures Cumulative(targets, i) <= Cumulative(targets, j)
    decreases j
  {
    if i < j { CumulativeGrows(targets, i, j - 1); }
  }

  /** The stretches do not overlap: a draw picks one target only. */
  lemma DrawPicksOne(targets: seq<Target>, i: nat, j: nat, draw: real)
    requires Holds(targets, i, draw) && Holds(targets, j, draw)
    ensures i == j
  {
    if i < j {
      CumulativeGrows(targets, i + 1, j);
    } else if j < i {
      CumulativeGrows(targets, j + 1, i);
    }
  }

  /** The total weights of two lists add up; that of one target is its weight. */
  lemma {:induction false} WeightsAdd(targets: seq<Target>, more: seq<Target>, n: nat, t: Target)
    requires n <= |more|
    ensures Cumulative(targets + more, |targets| + n) == Total(targets) + Cumulative(more, n)
    ensures Total([t]) == t.weight && Total([]) == 0
    decreases n
  {
    assert Cumulative([t], 0) == 0;
    if n > 0 { WeightsAdd(targets, more, n - 1, t); } else { SameStart(targets, more, |targets|); }
  }

  lemma {:induction false} SameStart(targets: seq<Target>, more: seq<Target>, n: nat)
    requires n <= |targets|
    ensures Cumulative(targets + more, n) == Cumulative(targets, n)
    decreases n
  {
    if n > 0 { SameStart(targets, more, n - 1); }
  }

  /** Every draw has its target: a draw of zero the first, any other the one in whose stretch it lies. */
  lemma {:induction false} EveryDrawPicks(targets: seq<Target>, draw: real, n: nat) returns (i: nat)
    requires targets != [] && n <= |targets|
    requires 0.0 < draw <= Cumulative(targets, n) as real
    ensures i < |targets| && Holds(targets, i, draw) && Holds(targets, 0, 0.0)
    decreases n
  {
    if draw <= Cumulative(targets, n - 1) as real {
      i := EveryDrawPicks(targets, draw, n - 1);
    } else {
      i := n - 1;
    }
  }

  /** Whoever is picked is the target in whose stretch the draw lies. */
  lemma PickFollowsTheDraw(targets: seq<Target>, t: Target, random: real, i: nat)
    requires IsWeightedPick(targets, t, random) && Holds(targets, i, random * Total(targets) as real)
    ensures t == targets[i]
  {
    var j :| 0 <= j < |targets| && targets[j] == t && Holds(targets, j, random * Total(targets) as real);
    DrawPicksOne(targets, i, j, random * Total(targets) as real);
  }

  /** How many of the whole draws 1 to `n` fall to target `i`. */
  function Share(targets: seq<Target>, i: nat, n: nat): nat {
    if n == 0 then 0 else Share(targets, i, n - 1) + if Holds(targets, i, n as real) then 1 else 0
  }

  lemma {:induction false} ShareUpTo(targets: seq<Target>, i: nat, n: nat)
    requires i < |targets|
    ensures var from, w := Cumulative(targets, i), targets[i].weight;
            Share(targets, i, n) == if n <= from then 0 else if n <= from + w then n - from else w
    decreases n
  {
    if n > 0 {
      ShareUpTo(targets, i, n - 1);
      var from, w := Cumulative(targets, i), targets[i].weight;
      assert (from + w) as real == from as real + w as real;
    }
  }

  /** Of the equally likely draws 1 to the total, exactly `weight` fall to each target. */
  lemma ShareIsWeight(targets: seq<Target>, i: nat)
    requires i < |targets|
    ensures Share(targets, i, Total(targets)) == targets[i].weight
  {
    ShareUpTo(targets, i, Total(targets));
    CumulativeGrows(targets, i + 1, |targets|);
  }

  // ---------------------------------------------------------------------
  // Failover.
  // ---------------------------------------------------------------------

  /** Of the best (lowest) priority there is, and the first such target. */
  predicate IsFirstBest(targets: seq<Target>, best: Target) {
    IsFirstLeast(targets, best, (t: Target) => t.priority)
  }

  method PickFailover(targets: seq<Target>) returns (t: Target)
    requires targets != []
    ensures t in targets && IsFirstBest(targets, t)
  {
    SortPutsFirstLeastFirst(targets, (t: Target) => t.priority);
    var sorted := Sort(targets, (t: Target) => t.priority);
    return sorted[0];
  }
}
