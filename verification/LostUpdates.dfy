/** Counters that are read, and written back one further later, by several calls at once. */
module LostUpdates {

  /**
   * How often a counter that `m` slots read and later write back, one further, can be written before
   * it has gone `n` steps, for each slot: m^0 + ... + m^(n - 1).
   */
  function Budget(m: nat, n: nat): nat {
    if n == 0 then 0 else 1 + m * Budget(m, n - 1)
  }

  lemma {:induction false} BudgetGrows(m: nat, k: nat, n: nat)
    requires k <= n
    ensures Budget(m, k) <= Budget(m, n)
    decreases n
  {
    if 0 < k {
      BudgetGrows(m, k - 1, n - 1);
      Scaled(m, Budget(m, k - 1), Budget(m, n - 1));
    }
  }

  lemma Scaled(m: nat, x: nat, y: nat)
    requires x <= y
    ensures m * x <= m * y
  {
    assert m * y == m * x + m * (y - x);
  }

  lemma OneMore(m: nat, x: nat)
    requires m > 0
    ensures m * x == (m - 1) * x + x
  {
  }

  /** The sum of `slot(0)` to `slot(m - 1)`. */
  function Total(m: nat, slot: nat -> nat): nat {
    if m == 0 then 0 else Total(m - 1, slot) + slot(m - 1)
  }

  /** A slot `j` that gives up what one step costs pays for what the others may gain. */
  lemma {:induction false} TotalFalls(m: nat, before: nat -> nat, after: nat -> nat, j: nat, gain: nat)
    requires forall i | 0 <= i < m && i != j :: after(i) <= before(i) + gain
    requires j < m ==> after(j) <= gain
    ensures Total(m, after) + (if j < m then before(j) else 0) <= Total(m, before) + m * gain
    decreases m
  {
    if m > 0 {
      TotalFalls(m - 1, before, after, j, gain);
      OneMore(m, gain);
    }
  }

  lemma {:induction false} TotalAtMost(m: nat, slot: nat -> nat, most: nat)
    requires forall i | 0 <= i < m :: slot(i) <= most
    ensures Total(m, slot) <= m * most
    decreases m
  {
    if m > 0 {
      TotalAtMost(m - 1, slot, most);
      OneMore(m, most);
    }
  }

  lemma {:induction false} TotalLeast(m: nat, slot: nat -> nat, j: nat)
    requires j < m
    ensures slot(j) <= Total(m, slot)
    decreases m
  {
    if j < m - 1 { TotalLeast(m - 1, slot, j); }
  }

  lemma {:induction false} TotalSame(m: nat, before: nat -> nat, after: nat -> nat)
    requires forall i | 0 <= i < m :: after(i) <= before(i)
    ensures Total(m, after) <= Total(m, before)
    decreases m
  {
    if m > 0 { TotalSame(m - 1, before, after); }
  }

  /** Without overlap the budgets are the counts of the atomic model. */
  lemma {:induction false} BudgetOfOne(n: nat)
    ensures Budget(1, n) == n
  {
    if n > 0 { BudgetOfOne(n - 1); }
  }
}
