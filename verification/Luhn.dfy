/** The Luhn test that tells card numbers from other digit strings. */
module Luhn {
  import opened Text

  /** What a digit adds, doubled and cast to one digit at every second place. */
  function Weight(d: int, double: bool): int {
    if !double then d else if 2 * d > 9 then 2 * d - 9 else 2 * d
  }

  /** Weights from the right, the last place doubled or not. */
  function Sum(num: string, double: bool): int
    requires AllDigits(num)
    decreases |num|
  {
    if num == "" then 0
    else Weight(DigitValue(num[|num| - 1]), double) + Sum(num[..|num| - 1], !double)
  }

  predicate Accepts(num: string)
    requires AllDigits(num)
  {
    Sum(num, false) % 10 == 0
  }

  method LuhnCheck(num: string) returns (valid: bool)
    requires AllDigits(num)
    ensures valid == Accepts(num)
  {
    var sum, double := 0, false;
    var i := |num| - 1;
    assert num[..|num|] == num;
    while i >= 0
      invariant -1 <= i < |num|
      invariant sum + Sum(num[..i + 1], double) == Sum(num, false)
    {
      var digit := DigitValue(num[i]);
      assert num[..i + 1][..i] == num[..i];
      if double {
        digit := digit * 2;
        if digit > 9 { digit := digit - 9; }
      }
      sum := sum + digit;
      double := !double;
      i := i - 1;
    }
    return sum % 10 == 0;
  }

  /** Is the place `k` from the left doubled, when the last place is as said? */
  predicate Doubled(n: nat, k: nat, double: bool)
    requires k < n
  {
    if (n - 1 - k) % 2 == 0 then double else !double
  }

  /** Changing one digit changes the sum by the change of its weight. */
  lemma {:induction false} SumAfterChange(num: string, k: nat, c: char, double: bool)
    requires AllDigits(num) && k < |num| && IsDigit(c)
    ensures AllDigits(num[k := c])
    ensures var at := Doubled(|num|, k, double);
            Sum(num[k := c], double) == Sum(num, double) - Weight(DigitValue(num[k]), at) + Weight(DigitValue(c), at)
    decreases |num|
  {
    var n := |num| - 1;
    if k < n {
      SumAfterChange(num[..n], k, c, !double);
      ChangeInside(num, k, c);
      DoubledBefore(n, k, double);
    } else {
      assert num[k := c][..n] == num[..n];
    }
  }

  lemma DoubledBefore(n: nat, k: nat, double: bool)
    requires k < n
    ensures Doubled(n + 1, k, double) == Doubled(n, k, !double)
  {
  }

  lemma ChangeInside(num: string, k: nat, c: char)
    requires k < |num| - 1
    ensures num[k := c][..|num| - 1] == num[..|num| - 1][k := c]
  {
  }

  /** The digit sum of a number below a hundred. */
  function DigitSum(x: nat): nat {
    x / 10 + x % 10
  }

  /** ISO/IEC 7812-1, Annex B, on the first `n` digits: of every second one from the right, twice it, by its digits. */
  function StandardSum(num: string, n: nat): nat
    requires AllDigits(num) && n <= |num|
  {
    if n == 0 then 0 else
    var d := DigitValue(num[n - 1]);
    StandardSum(num, n - 1) + if (|num| - n) % 2 == 1 then DigitSum(2 * d) else d
  }

  /** The loop accepts exactly the numbers whose sum by the standard is a multiple of ten. */
  lemma AcceptsByTheStandard(num: string)
    requires AllDigits(num)
    ensures Accepts(num) <==> StandardSum(num, |num|) % 10 == 0
  {
    SumIsStandard(num, |num|);
    assert num[..|num|] == num;
  }

  lemma DoubledIsDigitSum(d: nat)
    requires d <= 9
    ensures Weight(d, true) == DigitSum(2 * d)
  {
  }

  lemma ParityFlips(k: nat)
    ensures (k + 1) % 2 == 1 <==> k % 2 != 1
  {
  }

  lemma {:induction false} SumIsStandard(num: string, n: nat)
    requires AllDigits(num) && n <= |num|
    ensures Sum(num[..n], (|num| - n) % 2 == 1) == StandardSum(num, n)
    decreases n
  {
    if n > 0 {
      SumIsStandard(num, n - 1);
      assert num[..n][..n - 1] == num[..n - 1];
      DoubledIsDigitSum(DigitValue(num[n - 1]));
      ParityFlips(|num| - n);
    }
  }

  /** Every single-digit change of an accepted number is rejected. */
  lemma SingleChangeIsCaught(num: string, k: nat, c: char)
    requires AllDigits(num) && Accepts(num) && k < |num| && IsDigit(c) && c != num[k]
    ensures AllDigits(num[k := c]) && !Accepts(num[k := c])
  {
    SumAfterChange(num, k, c, false);
    var old', new' := DigitValue(num[k]), DigitValue(c);
    assert old' != new';
    var at := Doubled(|num|, k, false);
    WeightsDiffer(old', new', at);
    ModTenShift(Sum(num, false), Weight(new', at) - Weight(old', at));
  }

  lemma WeightsDiffer(a: int, b: int, double: bool)
    requires 0 <= a <= 9 && 0 <= b <= 9 && a != b
    ensures 0 <= Weight(a, double) <= 9 && 0 <= Weight(b, double) <= 9 && Weight(a, double) != Weight(b, double)
  {
  }

  function Swapped(num: string, k: nat): string
    requires k + 1 < |num|
  {
    num[k := num[k + 1]][k + 1 := num[k]]
  }

  /** What doubling adds to a digit. */
  function Extra(d: int): int {
    Weight(d, true) - d
  }

  lemma DoubledAlternates(n: nat, k: nat)
    requires k + 1 < n
    ensures Doubled(n, k + 1, false) == !Doubled(n, k, false)
  {
  }

  lemma SumAfterSwap(num: string, k: nat)
    requires AllDigits(num) && k + 1 < |num|
    ensures AllDigits(Swapped(num, k))
    ensures var change := Extra(DigitValue(num[k + 1])) - Extra(DigitValue(num[k]));
            Sum(Swapped(num, k), false) == Sum(num, false) + if Doubled(|num|, k, false) then change else -change
  {
    var x, y := num[k], num[k + 1];
    var first := num[k := y];
    SumAfterChange(num, k, y, false);
    SumAfterChange(first, k + 1, x, false);
    DoubledAlternates(|num|, k);
    assert first[k + 1] == y && first[k + 1 := x] == Swapped(num, k);
  }

  /** Swapping two different neighbours of an accepted number is rejected, except for 0 and 9. */
  lemma SwapIsCaughtIff(num: string, k: nat)
    requires AllDigits(num) && Accepts(num) && k + 1 < |num| && num[k] != num[k + 1]
    ensures AllDigits(Swapped(num, k))
    ensures Accepts(Swapped(num, k)) <==> {num[k], num[k + 1]} == {'0', '9'}
  {
    SumAfterSwap(num, k);
    SwapDifference(DigitValue(num[k]), DigitValue(num[k + 1]));
    SameSet(num[k], num[k + 1]);
    var change := Extra(DigitValue(num[k + 1])) - Extra(DigitValue(num[k]));
    ModTenShift(Sum(num, false), change);
    ModTenShift(Sum(num, false), -change);
  }

  lemma ModTenShift(s: int, c: int)
    requires s % 10 == 0 && -9 <= c <= 9
    ensures (s + c) % 10 == 0 <==> c == 0
  {
  }

  lemma SameSet(x: char, y: char)
    ensures {x, y} == {'0', '9'} <==> (x == '0' && y == '9') || (x == '9' && y == '0')
  {
    if {x, y} == {'0', '9'} { assert '0' in {x, y} && '9' in {x, y} && x in {'0', '9'} && y in {'0', '9'}; }
  }

  /** Doubling adds the same modulo ten to 0 and 9, and to no other two digits. */
  lemma SwapDifference(a: int, b: int)
    requires 0 <= a <= 9 && 0 <= b <= 9 && a != b
    ensures -9 <= Extra(b) - Extra(a) <= 9
    ensures Extra(b) == Extra(a) <==> (a == 0 && b == 9) || (a == 9 && b == 0)
  {
  }

  /** Exactly one check digit completes a payload. */
  lemma OneCheckDigit(payload: string, c: char)
    requires AllDigits(payload) && IsDigit(c)
    ensures AllDigits(payload + [c])
    ensures Accepts(payload + [c]) <==> DigitValue(c) == (10 - Sum(payload, true) % 10) % 10
  {
    assert (payload + [c])[..|payload|] == payload;
  }
}
