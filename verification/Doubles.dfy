/** Rounding to the significant bits of a floating-point number, ties to even (IEEE 754, section 4.3.1). */
module Doubles {
  import opened Cidr

  /** The significant bits of a JavaScript number. */
  const PRECISION := 53

  /** `n` without its `s` lowest bits. */
  function ShiftRight(n: nat, s: nat): nat {
    if s == 0 then n else ShiftRight(n / 2, s - 1)
  }

  function ShiftLeft(n: nat, s: nat): nat
    decreases s
  {
    if s == 0 then n else ShiftLeft(2 * n, s - 1)
  }

  /** Is one of the `s` lowest bits set? */
  predicate AnyBit(n: nat, s: nat) {
    s > 0 && (n % 2 == 1 || AnyBit(n / 2, s - 1))
  }

  /** How many low bits of `n` do not fit into `p` bits. */
  function Excess(n: nat, p: nat): nat {
    if n < Pow2(p) then 0 else 1 + Excess(n / 2, p)
  }

  /** Do the `s` lowest bits round up: more than half, or half and the bit above is set? */
  predicate RoundsUp(n: nat, s: nat) {
    && s > 0 && ShiftRight(n, s - 1) % 2 == 1
    && (AnyBit(n, s - 1) || ShiftRight(n, s) % 2 == 1)
  }

  /** What is left of `n` when its `s` lowest bits are rounded away. */
  function Kept(n: nat, s: nat): nat {
    ShiftRight(n, s) + if RoundsUp(n, s) then 1 else 0
  }

  /** `n` rounded to `p` significant bits. */
  function Round(n: nat, p: nat): nat {
    ShiftLeft(Kept(n, Excess(n, p)), Excess(n, p))
  }

  /** A number keeps its sign. */
  function Rounded(n: int, p: nat): int {
    if n >= 0 then Round(n, p) else 0 - Round(-n, p)
  }

  /** `2 ** e - 1` with `p` significant bits, truncated to an integer. */
  function PowerLessOne(e: int, p: nat): int {
    if e >= 0 then Round(Pow2(e) - 1, p) else 0 - ShiftRight(Round(Pow2(-e) - 1, p), -e)
  }

  // ----- Rounding goes to the nearest -----

  lemma {:induction false} ShiftLeftAdds(x: nat, s: nat)
    ensures ShiftLeft(x + 1, s) == ShiftLeft(x, s) + Pow2(s) && ShiftLeft(x, s) >= x
    decreases s
  {
    if s > 0 {
      ShiftLeftAdds(2 * x, s - 1);
      ShiftLeftAdds(2 * x + 1, s - 1);
    }
  }

  lemma {:induction false} ShiftLeftDoubles(x: nat, s: nat)
    ensures ShiftLeft(2 * x, s) == 2 * ShiftLeft(x, s)
    decreases s
  {
    if s > 0 { ShiftLeftDoubles(2 * x, s - 1); }
  }

  /** What the `s` lowest bits of `n` amount to. */
  function Low(n: nat, s: nat): int {
    n - ShiftLeft(ShiftRight(n, s), s)
  }

  lemma LowOfHalf(n: nat, s: nat)
    requires s > 0
    ensures Low(n, s) == 2 * Low(n / 2, s - 1) + n % 2
  {
    ShiftLeftDoubles(ShiftRight(n, s), s - 1);
  }

  lemma {:induction false} LowIsSmall(n: nat, s: nat)
    ensures 0 <= Low(n, s) < Pow2(s)
    ensures AnyBit(n, s) <==> Low(n, s) > 0
    decreases s
  {
    if s > 0 {
      LowIsSmall(n / 2, s - 1);
      LowOfHalf(n, s);
    }
  }

  /** The highest of the low bits says on which side of the middle they are. */
  lemma {:induction false} LowByTopBit(n: nat, s: nat)
    requires s > 0
    ensures Low(n, s) == Low(n, s - 1) + if ShiftRight(n, s - 1) % 2 == 1 then Pow2(s - 1) else 0
    decreases s
  {
    LowOfHalf(n, s);
    if s == 1 {
      assert Low(n / 2, 0) == 0 && Low(n, 0) == 0;
    } else {
      LowByTopBit(n / 2, s - 1);
      LowOfHalf(n, s - 1);
    }
  }

  function Apart(x: int, y: int): nat {
    if x < y then y - x else x - y
  }

  lemma Middle(low: int, rest: int, half: int, top: bool, any: bool, odd: bool)
    requires low == rest + (if top then half else 0) && 0 <= rest < half && (any <==> rest > 0)
    ensures var up := top && (any || odd);
            && (if up then low >= half else low <= half)
            && (low == half ==> (up <==> odd))
  {
  }

  /** Rounding up is for what is above the middle, and for the middle itself when that gives an even number. */
  lemma MiddleDecides(n: nat, s: nat)
    requires s > 0
    ensures if RoundsUp(n, s) then Low(n, s) >= Pow2(s - 1) else Low(n, s) <= Pow2(s - 1)
    ensures Low(n, s) == Pow2(s - 1) ==> (RoundsUp(n, s) <==> ShiftRight(n, s) % 2 == 1)
  {
    LowByTopBit(n, s);
    LowIsSmall(n, s - 1);
    Middle(Low(n, s), Low(n, s - 1), Pow2(s - 1), ShiftRight(n, s - 1) % 2 == 1, AnyBit(n, s - 1),
           ShiftRight(n, s) % 2 == 1);
  }

  /** At most half of the last bit kept is lost, and a tie leaves that bit even. */
  lemma KeptIsNearest(n: nat, s: nat)
    ensures var lost := Apart(ShiftLeft(Kept(n, s), s), n);
            2 * lost <= Pow2(s) && (2 * lost == Pow2(s) ==> Kept(n, s) % 2 == 0)
  {
    if s > 0 { MiddleDecides(n, s); }
    LowIsSmall(n, s);
    ShiftLeftAdds(ShiftRight(n, s), s);
  }

  lemma {:induction false} ExcessLeavesPrecision(n: nat, p: nat)
    requires p > 0
    ensures ShiftRight(n, Excess(n, p)) < Pow2(p)
    ensures n >= Pow2(p) ==> Excess(n, p) > 0 && ShiftRight(n, Excess(n, p)) >= Pow2(p - 1)
    decreases n
  {
    if n >= Pow2(p) {
      ExcessLeavesPrecision(n / 2, p);
      if n / 2 < Pow2(p) { assert n / 2 >= Pow2(p - 1); }
      OneMoreShift(n, Excess(n / 2, p));
    }
  }

  lemma OneMoreShift(n: nat, s: nat)
    ensures ShiftRight(n, s + 1) == ShiftRight(n / 2, s)
  {
  }

  /**
   * A rounded number has `p` significant bits and is off by at most half of the last of them; a number
   * that fits is left alone.
   */
  lemma RoundIsNearest(n: nat, p: nat)
    requires p > 0
    ensures var s := Excess(n, p);
            && Round(n, p) == ShiftLeft(Kept(n, s), s) && Kept(n, s) <= Pow2(p)
            && 2 * Apart(Round(n, p), n) <= Pow2(s) && (2 * Apart(Round(n, p), n) == Pow2(s) ==> Kept(n, s) % 2 == 0)
            && (n < Pow2(p) ==> Round(n, p) == n)
            && (n >= Pow2(p) ==> Kept(n, s) >= Pow2(p - 1))
  {
    KeptIsNearest(n, Excess(n, p));
    ExcessLeavesPrecision(n, p);
  }

  lemma RoundFits(n: nat, p: nat)
    requires n < Pow2(p)
    ensures Round(n, p) == n
  {
  }

  /** A number that does not fit stays one that does not. */
  lemma RoundStaysLarge(n: nat, p: nat)
    requires p > 0 && n >= Pow2(p)
    ensures Round(n, p) >= Pow2(p)
  {
    var s := Excess(n, p);
    ExcessLeavesPrecision(n, p);
    ShiftLeftAdds(2 * Kept(n, s), s - 1);
  }

  // ----- A rounded number is left alone -----

  lemma {:induction false} ShiftBack(k: nat, s: nat)
    ensures ShiftRight(ShiftLeft(k, s), s) == k
    decreases s
  {
    if s > 0 {
      ShiftLeftDoubles(k, s - 1);
      ShiftBack(k, s - 1);
      OneMoreShift(ShiftLeft(k, s), s - 1);
    }
  }

  lemma {:induction false} ExcessOfShifted(k: nat, s: nat, p: nat)
    requires p > 0 && Pow2(p - 1) <= k < Pow2(p)
    ensures Excess(ShiftLeft(k, s), p) == s
    decreases s
  {
    if s > 0 {
      ShiftLeftDoubles(k, s - 1);
      ShiftLeftAdds(k, s - 1);
      ExcessOfShifted(k, s - 1, p);
    }
  }

  lemma ShiftedIsExact(k: nat, s: nat, p: nat)
    requires p > 0 && Pow2(p - 1) <= k < Pow2(p)
    ensures Round(ShiftLeft(k, s), p) == ShiftLeft(k, s)
  {
    ExcessOfShifted(k, s, p);
    ShiftBack(k, s);
    if s > 0 { ShiftBack(2 * k, s - 1); }
  }

  lemma RoundAgain(n: nat, p: nat)
    requires p > 0
    ensures Round(Round(n, p), p) == Round(n, p)
  {
    RoundIsNearest(n, p);
    if n >= Pow2(p) {
      var s := Excess(n, p);
      if Kept(n, s) < Pow2(p) {
        ShiftedIsExact(Kept(n, s), s, p);
      } else {
        ShiftedIsExact(Pow2(p - 1), s + 1, p);
      }
    }
  }

  // ----- A power of two less one -----

  lemma {:induction false} ExcessOfOnes(k: nat, p: nat)
    ensures Excess(Pow2(k) - 1, p) == if k <= p then 0 else k - p
    decreases k
  {
    if k <= p {
      Pow2Monotone(k, p);
    } else {
      Pow2Monotone(p, k - 1);
      assert (Pow2(k) - 1) / 2 == Pow2(k - 1) - 1;
      ExcessOfOnes(k - 1, p);
    }
  }

  lemma {:induction false} ShiftRightOnes(k: nat, s: nat)
    requires s <= k
    ensures ShiftRight(Pow2(k) - 1, s) == Pow2(k - s) - 1 && ShiftRight(Pow2(k), s) == Pow2(k - s)
    decreases s
  {
    if s > 0 {
      assert (Pow2(k) - 1) / 2 == Pow2(k - 1) - 1 && Pow2(k) / 2 == Pow2(k - 1);
      ShiftRightOnes(k - 1, s - 1);
    }
  }

  lemma {:induction false} ShiftLeftPower(k: nat, s: nat)
    ensures ShiftLeft(Pow2(k), s) == Pow2(k + s)
    decreases s
  {
    if s > 0 { ShiftLeftPower(k + 1, s - 1); }
  }

  lemma OnesRoundUp(k: nat, p: nat)
    requires 0 < p < k
    ensures RoundsUp(Pow2(k) - 1, k - p)
  {
    ShiftRightOnes(k, k - p);
    ShiftRightOnes(k, k - p - 1);
    OnesAreOdd(p);
    OnesAreOdd(p + 1);
  }

  lemma OnesAreOdd(k: nat)
    requires k > 0
    ensures (Pow2(k) - 1) % 2 == 1
  {
    OddBelowDouble(Pow2(k - 1));
  }

  lemma OddBelowDouble(x: int)
    ensures (2 * x - 1) % 2 == 1
  {
  }

  /** A power of two less one fits, or rounds to the power. */
  lemma RoundOfOnes(k: nat, p: nat)
    requires p > 0
    ensures Round(Pow2(k) - 1, p) == if k <= p then Pow2(k) - 1 else Pow2(k)
  {
    ExcessOfOnes(k, p);
    if k > p {
      ShiftRightOnes(k, k - p);
      OnesRoundUp(k, p);
      ShiftLeftPower(p, k - p);
    }
  }

  lemma HighPowerLessOne(e: nat, p: nat)
    requires p > 0
    ensures PowerLessOne(e, p) == if e <= p then Pow2(e) - 1 else Pow2(e)
  {
    RoundOfOnes(e, p);
  }

  lemma LowPowerLessOne(e: int, p: nat)
    requires e < 0 < p
    ensures PowerLessOne(e, p) == if e + p >= 0 then 0 else -1
  {
    RoundOfOnes(-e, p);
    ShiftRightOnes(-e, -e);
  }
}
