/** The "did you mean" edit distance of the not-found page. */
module Levenshtein {
  import opened Options
  import opened Seqs

  // ---------------------------------------------------------------------
  // What the distance means: the least number of single-element edits.
  // ---------------------------------------------------------------------

  /** One edit of a sequence at a position. */
  datatype Edit<T> =
    | Insert(at: nat, x: T)
    | Delete(at: nat)
    | Substitute(at: nat, x: T)

  predicate Applicable<T>(e: Edit<T>, s: seq<T>) {
    match e
    case Insert(at, _) => at <= |s|
    case Delete(at) => at < |s|
    case Substitute(at, _) => at < |s|
  }

  function Apply<T>(e: Edit<T>, s: seq<T>): seq<T>
    requires Applicable(e, s)
  {
    match e
    case Insert(at, x) => s[..at] + [x] + s[at..]
    case Delete(at) => s[..at] + s[at + 1..]
    case Substitute(at, x) => s[..at] + [x] + s[at + 1..]
  }

  /** What a script makes of `a`, one edit after the other, if every edit applies. */
  function Result<T>(script: seq<Edit<T>>, a: seq<T>): Option<seq<T>>
    decreases |script|
  {
    if script == [] then Some(a)
    else if Applicable(script[0], a) then Result(script[1..], Apply(script[0], a))
    else None
  }

  predicate Transforms<T(==)>(script: seq<Edit<T>>, a: seq<T>, b: seq<T>) {
    Result(script, a) == Some(b)
  }

  // ---------------------------------------------------------------------
  // The table the routine fills, cell (|a|, |b|), matches taken without min.
  // ---------------------------------------------------------------------

  function Min3(x: int, y: int, z: int): int {
    if x <= y && x <= z then x else if y <= z then y else z
  }

  function Init<T>(s: seq<T>): seq<T>
    requires s != []
  {
    s[..|s| - 1]
  }

  function Last<T>(s: seq<T>): T
    requires s != []
  {
    s[|s| - 1]
  }

  function Cell<T(==)>(a: seq<T>, b: seq<T>): nat
    decreases |a| + |b|
  {
    if a == [] then |b|
    else if b == [] then |a|
    else if Last(a) == Last(b) then Cell(Init(a), Init(b))
    else 1 + Min3(Cell(Init(a), Init(b)), Cell(Init(a), b), Cell(a, Init(b)))
  }

  /** Neighbouring cells differ by at most one, and the diagonal never falls. */
  lemma {:induction false} Neighbours<T>(a: seq<T>, b: seq<T>)
    ensures a != [] ==> Cell(Init(a), b) <= Cell(a, b) + 1 && Cell(a, b) <= Cell(Init(a), b) + 1
    ensures b != [] ==> Cell(a, Init(b)) <= Cell(a, b) + 1 && Cell(a, b) <= Cell(a, Init(b)) + 1
    ensures a != [] && b != [] ==> Cell(Init(a), Init(b)) <= Cell(a, b) <= Cell(Init(a), Init(b)) + 1
    decreases |a| + |b|
  {
    if a != [] && b != [] {
      Neighbours(Init(a), b);
      Neighbours(a, Init(b));
      Neighbours(Init(a), Init(b));
    }
  }

  // ---------------------------------------------------------------------
  // No script is shorter than the cell.
  // ---------------------------------------------------------------------

  lemma InitOfConcat<T>(p: seq<T>, s: seq<T>)
    requires s != []
    ensures p + s != [] && Init(p + s) == p + Init(s) && Last(p + s) == Last(s)
  {
  }

  /** Two sequences ending alike are as close, up to one, as their three smaller cells are. */
  lemma CloseStep<T>(a: seq<T>, a': seq<T>, b: seq<T>)
    requires a != [] && a' != [] && b != [] && Last(a) == Last(a')
    requires Cell(Init(a), Init(b)) <= Cell(Init(a'), Init(b)) + 1
    requires Cell(Init(a), b) <= Cell(Init(a'), b) + 1
    requires Cell(a, Init(b)) <= Cell(a', Init(b)) + 1
    ensures Cell(a, b) <= Cell(a', b) + 1
  {
  }

  /** Inserting one element anywhere moves the cell by at most one. */
  lemma {:induction false} InsertMovesByOne<T>(p: seq<T>, x: T, s: seq<T>, b: seq<T>)
    ensures Cell(p + s, b) <= Cell(p + [x] + s, b) + 1
    ensures Cell(p + [x] + s, b) <= Cell(p + s, b) + 1
    decreases |s| + |b|
  {
    if s == [] {
      assert p + s == p == Init(p + [x] + s);
      Neighbours(p + [x] + s, b);
    } else if b != [] {
      InitOfConcat(p, s);
      InitOfConcat(p + [x], s);
      InsertMovesByOne(p, x, Init(s), Init(b));
      InsertMovesByOne(p, x, Init(s), b);
      InsertMovesByOne(p, x, s, Init(b));
      CloseStep(p + s, p + [x] + s, b);
      CloseStep(p + [x] + s, p + s, b);
    }
  }

  /** Replacing one element anywhere moves the cell by at most one. */
  lemma {:induction false} SubstituteMovesByOne<T>(p: seq<T>, x: T, y: T, s: seq<T>, b: seq<T>)
    ensures Cell(p + [x] + s, b) <= Cell(p + [y] + s, b) + 1
    decreases |s| + |b|
  {
    if b == [] {
    } else if s == [] {
      assert Init(p + [x] + s) == p == Init(p + [y] + s);
      Neighbours(p + [x] + s, b);
      Neighbours(p + [y] + s, b);
    } else {
      InitOfConcat(p + [x], s);
      InitOfConcat(p + [y], s);
      SubstituteMovesByOne(p, x, y, Init(s), Init(b));
      SubstituteMovesByOne(p, x, y, Init(s), b);
      SubstituteMovesByOne(p, x, y, s, Init(b));
      CloseStep(p + [x] + s, p + [y] + s, b);
    }
  }

  lemma EditMovesByOne<T>(e: Edit<T>, a: seq<T>, b: seq<T>)
    requires Applicable(e, a)
    ensures Cell(a, b) <= Cell(Apply(e, a), b) + 1
  {
    match e
    case Insert(at, x) =>
      assert a == a[..at] + a[at..];
      InsertMovesByOne(a[..at], x, a[at..], b);
    case Delete(at) =>
      assert a == a[..at] + [a[at]] + a[at + 1..];
      InsertMovesByOne(a[..at], a[at], a[at + 1..], b);
    case Substitute(at, x) =>
      assert a == a[..at] + [a[at]] + a[at + 1..];
      SubstituteMovesByOne(a[..at], a[at], x, a[at + 1..], b);
  }

  lemma {:induction false} CellOfEqual<T>(a: seq<T>)
    ensures Cell(a, a) == 0
    decreases |a|
  {
    if a != [] { CellOfEqual(Init(a)); }
  }

  lemma {:induction false} NoShorterScript<T>(script: seq<Edit<T>>, a: seq<T>, b: seq<T>)
    requires Transforms(script, a, b)
    ensures Cell(a, b) <= |script|
    decreases |script|
  {
    if script == [] {
      CellOfEqual(a);
    } else {
      NoShorterScript(script[1..], Apply(script[0], a), b);
      EditMovesByOne(script[0], a, b);
    }
  }

  // ---------------------------------------------------------------------
  // Some script is as short as the cell.
  // ---------------------------------------------------------------------

  lemma TransformsCons<T>(e: Edit<T>, s: seq<Edit<T>>, a: seq<T>, b: seq<T>)
    requires Applicable(e, a) && Transforms(s, Apply(e, a), b)
    ensures Transforms([e] + s, a, b)
  {
    assert ([e] + s)[1..] == s;
  }

  lemma {:induction false} TransformsConcat<T>(s: seq<Edit<T>>, t: seq<Edit<T>>, a: seq<T>, b: seq<T>, c: seq<T>)
    requires Transforms(s, a, b) && Transforms(t, b, c)
    ensures Transforms(s + t, a, c)
    decreases |s|
  {
    if s == [] {
      assert s + t == t;
    } else {
      TransformsConcat(s[1..], t, Apply(s[0], a), b, c);
      TransformsCons(s[0], s[1..] + t, a, c);
      HeadOfConcat(s, t);
    }
  }

  lemma ApplyUnderSuffix<T>(e: Edit<T>, a: seq<T>, z: seq<T>)
    requires Applicable(e, a)
    ensures Applicable(e, a + z) && Apply(e, a + z) == Apply(e, a) + z
  {
    TakeDropOfConcat(a, z, e.at);
    match e
    case Insert(at, x) =>
      Associate(a[..at] + [x], a[at..], z);
    case Delete(at) =>
      TakeDropOfConcat(a, z, at + 1);
      Associate(a[..at], a[at + 1..], z);
    case Substitute(at, x) =>
      TakeDropOfConcat(a, z, at + 1);
      Associate(a[..at] + [x], a[at + 1..], z);
  }

  /** A script for `a` works unchanged when a common suffix follows. */
  lemma {:induction false} TransformsUnderSuffix<T>(s: seq<Edit<T>>, a: seq<T>, b: seq<T>, z: seq<T>)
    requires Transforms(s, a, b)
    ensures Transforms(s, a + z, b + z)
    decreases |s|
  {
    if s != [] {
      TransformsUnderSuffix(s[1..], Apply(s[0], a), b, z);
      ApplyUnderSuffix(s[0], a, z);
    }
  }

  lemma ThenEdit<T>(s: seq<Edit<T>>, a: seq<T>, b: seq<T>, e: Edit<T>) returns (longer: seq<Edit<T>>)
    requires Transforms(s, a, b) && Applicable(e, b)
    ensures Transforms(longer, a, Apply(e, b)) && |longer| == |s| + 1
  {
    var c := Apply(e, b);
    TransformsCons(e, [], b, c);
    assert [e] + [] == [e];
    TransformsConcat(s, [e], a, b, c);
    longer := s + [e];
  }

  lemma {:induction false} ShortestScript<T>(a: seq<T>, b: seq<T>) returns (s: seq<Edit<T>>)
    ensures Transforms(s, a, b) && |s| == Cell(a, b)
    decreases |a| + |b|
  {
    if a == [] && b == [] {
      s := [];
    } else if a == [] {
      s := ThenInsert(a, b);
    } else if b == [] {
      s := DeleteThen(a, b);
    } else if Last(a) == Last(b) {
      s := KeepLast(a, b);
      InitLast(b);
    } else if Cell(a, b) == 1 + Cell(Init(a), Init(b)) {
      s := ThenSubstitute(a, b);
    } else if Cell(a, b) == 1 + Cell(Init(a), b) {
      s := DeleteThen(a, b);
    } else {
      s := ThenInsert(a, b);
    }
  }

  /** Work on the part before the last elements, leaving the last element of `a` in place. */
  lemma KeepLast<T>(a: seq<T>, b: seq<T>) returns (s: seq<Edit<T>>)
    requires a != [] && b != []
    ensures Transforms(s, a, Init(b) + [Last(a)]) && |s| == Cell(Init(a), Init(b))
    decreases |a| + |b|, 0
  {
    s := ShortestScript(Init(a), Init(b));
    TransformsUnderSuffix(s, Init(a), Init(b), [Last(a)]);
    InitLast(a);
  }

  lemma ThenSubstitute<T>(a: seq<T>, b: seq<T>) returns (s: seq<Edit<T>>)
    requires a != [] && b != []
    ensures Transforms(s, a, b) && |s| == Cell(Init(a), Init(b)) + 1
    decreases |a| + |b|, 1
  {
    var keep := KeepLast(a, b);
    var mid := Init(b) + [Last(a)];
    var e := Substitute(|b| - 1, Last(b));
    assert Apply(e, mid) == b by { InitLast(b); }
    s := ThenEdit(keep, a, mid, e);
  }

  lemma ThenInsert<T>(a: seq<T>, b: seq<T>) returns (s: seq<Edit<T>>)
    requires b != []
    ensures Transforms(s, a, b) && |s| == Cell(a, Init(b)) + 1
    decreases |a| + |b|, 0
  {
    var first := ShortestScript(a, Init(b));
    var e := Insert(|b| - 1, Last(b));
    assert Apply(e, Init(b)) == b by { InitLast(b); }
    s := ThenEdit(first, a, Init(b), e);
  }

  lemma DeleteThen<T>(a: seq<T>, b: seq<T>) returns (s: seq<Edit<T>>)
    requires a != []
    ensures Transforms(s, a, b) && |s| == Cell(Init(a), b) + 1
    decreases |a| + |b|, 0
  {
    var e: Edit<T> := Delete(|a| - 1);
    assert Apply(e, a) == Init(a);
    var rest := ShortestScript(Init(a), b);
    TransformsCons(e, rest, a, b);
    s := [e] + rest;
  }

  /** The table cell is the edit distance, for all sequences: so many edits suffice, and fewer never do. */
  lemma CellIsEditDistance<T(!new)>(a: seq<T>, b: seq<T>)
    ensures exists script: seq<Edit<T>> :: Transforms(script, a, b) && |script| == Cell(a, b)
    ensures forall script: seq<Edit<T>> :: Transforms(script, a, b) ==> Cell(a, b) <= |script|
  {
    var s := ShortestScript(a, b);
    forall script: seq<Edit<T>> | Transforms(script, a, b)
      ensures Cell(a, b) <= |script|
    {
      NoShorterScript(script, a, b);
    }
  }

  // ---------------------------------------------------------------------
  // The distance is a metric, bounded by the lengths.
  // ---------------------------------------------------------------------

  lemma ZeroIffEqual<T>(a: seq<T>, b: seq<T>)
    ensures Cell(a, b) == 0 <==> a == b
  {
    CellOfEqual(a);
    var s := ShortestScript(a, b);
  }

  lemma {:induction false} Symmetric<T>(a: seq<T>, b: seq<T>)
    ensures Cell(a, b) == Cell(b, a)
    decreases |a| + |b|
  {
    if a != [] && b != [] {
      Symmetric(Init(a), Init(b));
      Symmetric(Init(a), b);
      Symmetric(a, Init(b));
    }
  }

  lemma Triangle<T>(a: seq<T>, b: seq<T>, c: seq<T>)
    ensures Cell(a, c) <= Cell(a, b) + Cell(b, c)
  {
    var s := ShortestScript(a, b);
    var t := ShortestScript(b, c);
    TransformsConcat(s, t, a, b, c);
    NoShorterScript(s + t, a, c);
  }

  lemma {:induction false} LengthBounds<T>(a: seq<T>, b: seq<T>)
    ensures |a| - |b| <= Cell(a, b) && |b| - |a| <= Cell(a, b)
    ensures Cell(a, b) <= if |a| <= |b| then |b| else |a|
    decreases |a| + |b|
  {
    if a != [] && b != [] {
      LengthBounds(Init(a), Init(b));
      LengthBounds(Init(a), b);
      LengthBounds(a, Init(b));
    }
  }

  // ---------------------------------------------------------------------
  // The routine: one row, overwritten in place, `prev` carrying the diagonal.
  // ---------------------------------------------------------------------

  /** Row `i`, column `j` of the table. */
  ghost function At<T>(a: seq<T>, b: seq<T>, i: nat, j: nat): nat
    requires i <= |a| && j <= |b|
  {
    Cell(a[..i], b[..j])
  }

  lemma AtStep<T>(a: seq<T>, b: seq<T>, i: nat, j: nat)
    requires 1 <= i <= |a| && 1 <= j <= |b|
    ensures At(a, b, i, j) ==
            if a[i - 1] == b[j - 1] then At(a, b, i - 1, j - 1)
            else Min3(At(a, b, i - 1, j - 1), At(a, b, i - 1, j), At(a, b, i, j - 1)) + 1
  {
    assert Init(a[..i]) == a[..i - 1] && Init(b[..j]) == b[..j - 1];
  }

  method Distance<T(==,!new)>(a: seq<T>, b: seq<T>) returns (d: nat)
    ensures d == Cell(a, b)
    ensures exists script: seq<Edit<T>> :: Transforms(script, a, b) && |script| == d
    ensures forall script: seq<Edit<T>> :: Transforms(script, a, b) ==> d <= |script|
  {
    CellIsEditDistance(a, b);
    if a == b {
      CellOfEqual(a);
      return 0;
    }
    var m, n := |a|, |b|;
    if m == 0 || n == 0 {
      return if m >= n then m else n;
    }
    d := FillRows(a, b);
    assert a[..m] == a && b[..n] == b;
  }

  /** The two nested loops over the single row `dp`. */
  method FillRows<T(==)>(a: seq<T>, b: seq<T>) returns (d: nat)
    ensures d == At(a, b, |a|, |b|)
  {
    var m, n := |a|, |b|;
    var dp := new nat[n + 1](i => i);
    for i := 1 to m + 1
      invariant forall k | 0 <= k <= n :: dp[k] == At(a, b, i - 1, k)
    {
      var prev := i - 1;
      dp[0] := i;
      for j := 1 to n + 1
        invariant forall k | 0 <= k < j :: dp[k] == At(a, b, i, k)
        invariant forall k | j <= k <= n :: dp[k] == At(a, b, i - 1, k)
        invariant prev == At(a, b, i - 1, j - 1)
      {
        var tmp := dp[j];
        AtStep(a, b, i, j);
        dp[j] := if a[i - 1] == b[j - 1] then prev else Min3(prev, dp[j], dp[j - 1]) + 1;
        prev := tmp;
      }
    }
    return dp[n];
  }
}
