/** The stable sort of JavaScript arrays, by an integer key. */
module StableSort {
  import opened Seqs

  /** Insert behind every element of the same or a smaller key. */
  function Insert<T>(x: T, sorted: seq<T>, key: T -> int): seq<T> {
    if sorted == [] then [x]
    else if key(sorted[0]) <= key(x) then [sorted[0]] + Insert(x, sorted[1..], key)
    else [x] + sorted
  }

  function Sort<T>(xs: seq<T>, key: T -> int): seq<T> {
    if xs == [] then [] else Insert(xs[|xs| - 1], Sort(xs[..|xs| - 1], key), key)
  }

  predicate Ordered<T>(xs: seq<T>, key: T -> int) {
    forall i, j | 0 <= i < j < |xs| :: key(xs[i]) <= key(xs[j])
  }

  lemma {:induction false} InsertPermutes<T>(x: T, sorted: seq<T>, key: T -> int)
    ensures multiset(Insert(x, sorted, key)) == multiset(sorted) + multiset{x}
    decreases |sorted|
  {
    if sorted != [] {
      InsertPermutes(x, sorted[1..], key);
      assert sorted == [sorted[0]] + sorted[1..];
    }
  }

  lemma {:induction false} SortPermutes<T>(xs: seq<T>, key: T -> int)
    ensures multiset(Sort(xs, key)) == multiset(xs) && |Sort(xs, key)| == |xs|
    decreases |xs|
  {
    if xs != [] {
      var init, x := xs[..|xs| - 1], xs[|xs| - 1];
      SortPermutes(init, key);
      InsertPermutes(x, Sort(init, key), key);
      assert xs == init + [x];
    }
    assert |multiset(Sort(xs, key))| == |Sort(xs, key)|;
  }

  lemma {:induction false} InsertKeepsOrder<T>(x: T, sorted: seq<T>, key: T -> int)
    requires Ordered(sorted, key)
    ensures Ordered(Insert(x, sorted, key), key)
    ensures forall y | y in Insert(x, sorted, key) :: y == x || y in sorted
    decreases |sorted|
  {
    if sorted != [] && key(sorted[0]) <= key(x) {
      InsertKeepsOrder(x, sorted[1..], key);
      var rest := Insert(x, sorted[1..], key);
      forall j | 0 <= j < |rest| ensures key(sorted[0]) <= key(rest[j]) {
        if rest[j] != x { assert rest[j] in sorted[1..]; }
      }
    }
  }

  lemma {:induction false} SortOrders<T>(xs: seq<T>, key: T -> int)
    ensures Ordered(Sort(xs, key), key)
    decreases |xs|
  {
    if xs != [] {
      SortOrders(xs[..|xs| - 1], key);
      InsertKeepsOrder(xs[|xs| - 1], Sort(xs[..|xs| - 1], key), key);
    }
  }

  /** The elements with a given key, in their order. */
  function WithKey<T>(xs: seq<T>, key: T -> int, k: int): seq<T> {
    if xs == [] then [] else WithKey(xs[..|xs| - 1], key, k) + if key(xs[|xs| - 1]) == k then [xs[|xs| - 1]] else []
  }

  lemma {:induction false} WithKeyConcat<T>(xs: seq<T>, ys: seq<T>, key: T -> int, k: int)
    ensures WithKey(xs + ys, key, k) == WithKey(xs, key, k) + WithKey(ys, key, k)
    decreases |ys|
  {
    if ys == [] {
      assert xs + ys == xs;
    } else {
      WithKeyConcat(xs, ys[..|ys| - 1], key, k);
      assert (xs + ys)[..|xs + ys| - 1] == xs + ys[..|ys| - 1];
    }
  }

  lemma {:induction false} NoneWithKey<T>(xs: seq<T>, key: T -> int, k: int)
    requires forall x | x in xs :: key(x) != k
    ensures WithKey(xs, key, k) == []
    decreases |xs|
  {
    if xs != [] { NoneWithKey(xs[..|xs| - 1], key, k); }
  }

  lemma {:induction false} InsertIsStable<T>(x: T, sorted: seq<T>, key: T -> int, k: int)
    requires Ordered(sorted, key)
    ensures WithKey(Insert(x, sorted, key), key, k) == WithKey(sorted + [x], key, k)
    decreases |sorted|
  {
    if sorted == [] {
      assert sorted + [x] == [x];
    } else if key(sorted[0]) <= key(x) {
      var head, rest := [sorted[0]], sorted[1..];
      InsertIsStable(x, rest, key, k);
      WithKeyConcat(head, Insert(x, rest, key), key, k);
      WithKeyConcat(head, rest + [x], key, k);
      assert head + (rest + [x]) == sorted + [x];
    } else {
      WithKeyConcat([x], sorted, key, k);
      WithKeyConcat(sorted, [x], key, k);
      KeysCommute(x, sorted, key, k);
    }
  }

  /** Of an element and a list of larger keys, only one side can have a given key. */
  lemma KeysCommute<T>(x: T, ys: seq<T>, key: T -> int, k: int)
    requires forall y | y in ys :: key(x) < key(y)
    ensures WithKey([x], key, k) + WithKey(ys, key, k) == WithKey(ys, key, k) + WithKey([x], key, k)
  {
    if key(x) == k { NoneWithKey(ys, key, k); } else { NoneWithKey([x], key, k); }
  }

  lemma SortAppendIsStable<T>(xs: seq<T>, x: T, key: T -> int, k: int)
    requires WithKey(Sort(xs, key), key, k) == WithKey(xs, key, k)
    ensures WithKey(Sort(xs + [x], key), key, k) == WithKey(xs + [x], key, k)
  {
    var sorted := Sort(xs, key);
    SortOrders(xs, key);
    InsertIsStable(x, sorted, key, k);
    WithKeyConcat(sorted, [x], key, k);
    WithKeyConcat(xs, [x], key, k);
    SortAppend(xs, x, key);
  }

  lemma SortAppend<T>(xs: seq<T>, x: T, key: T -> int)
    ensures Sort(xs + [x], key) == Insert(x, Sort(xs, key), key)
  {
    assert (xs + [x])[..|xs|] == xs;
  }

  /** Elements with equal keys keep their order. */
  lemma {:induction false} SortIsStable<T>(xs: seq<T>, key: T -> int, k: int)
    ensures WithKey(Sort(xs, key), key, k) == WithKey(xs, key, k)
    decreases |xs|
  {
    if xs != [] {
      SortIsStable(xs[..|xs| - 1], key, k);
      SortAppendIsStable(xs[..|xs| - 1], xs[|xs| - 1], key, k);
      InitLast(xs);
    }
  }

  predicate DistinctKeys<T>(xs: seq<T>, key: T -> int) {
    forall i, j | 0 <= i < j < |xs| :: key(xs[i]) != key(xs[j])
  }

  lemma SameKeySameElement<T>(xs: seq<T>, key: T -> int, x: T, y: T)
    requires DistinctKeys(xs, key) && x in xs && y in xs && key(x) == key(y)
    ensures x == y
  {
    var i :| 0 <= i < |xs| && xs[i] == x;
    var j :| 0 <= j < |xs| && xs[j] == y;
  }

  lemma SameHead<T>(xs: seq<T>, ys: seq<T>, key: T -> int)
    requires multiset(xs) == multiset(ys) && Ordered(xs, key) && Ordered(ys, key) && DistinctKeys(xs, key)
    requires xs != [] && ys != []
    ensures xs[0] == ys[0]
  {
    assert xs[0] in multiset(ys) && ys[0] in multiset(xs);
    var i :| 0 <= i < |ys| && ys[i] == xs[0];
    var j :| 0 <= j < |xs| && xs[j] == ys[0];
    assert key(ys[0]) <= key(ys[i]) && key(xs[0]) <= key(xs[j]);
    SameKeySameElement(xs, key, xs[0], ys[0]);
  }

  lemma TailOf<T>(xs: seq<T>, key: T -> int)
    requires xs != [] && Ordered(xs, key)
    ensures multiset(xs[1..]) == multiset(xs) - multiset{xs[0]}
    ensures Ordered(xs[1..], key) && (DistinctKeys(xs, key) ==> DistinctKeys(xs[1..], key))
  {
    assert xs == [xs[0]] + xs[1..];
    assert forall i | 0 <= i < |xs| - 1 :: xs[1..][i] == xs[i + 1];
  }

  lemma SameLength<T>(xs: seq<T>, ys: seq<T>)
    requires multiset(xs) == multiset(ys)
    ensures |xs| == |ys|
  {
    assert |multiset(xs)| == |xs| && |multiset(ys)| == |ys|;
  }

  /** Distinct keys leave one ordered arrangement only. */
  lemma {:induction false} OrderIsUnique<T>(xs: seq<T>, ys: seq<T>, key: T -> int)
    requires multiset(xs) == multiset(ys) && Ordered(xs, key) && Ordered(ys, key) && DistinctKeys(xs, key)
    ensures xs == ys
    decreases |xs|
  {
    SameLength(xs, ys);
    if xs != [] {
      SameHead(xs, ys, key);
      TailOf(xs, key);
      TailOf(ys, key);
      OrderIsUnique(xs[1..], ys[1..], key);
      HeadTail(xs);
      HeadTail(ys);
    }
  }

  /** With distinct keys the sorted list does not depend on the order the elements came in. */
  lemma SortIgnoresArrival<T>(xs: seq<T>, ys: seq<T>, key: T -> int)
    requires multiset(xs) == multiset(ys) && DistinctKeys(xs, key)
    ensures Sort(xs, key) == Sort(ys, key)
  {
    SortPermutes(xs, key);
    SortPermutes(ys, key);
    SortOrders(xs, key);
    SortOrders(ys, key);
    DistinctIsPermutationInvariant(xs, Sort(xs, key), key);
    OrderIsUnique(Sort(xs, key), Sort(ys, key), key);
  }

  lemma DistinctIsPermutationInvariant<T>(xs: seq<T>, ys: seq<T>, key: T -> int)
    requires multiset(xs) == multiset(ys) && DistinctKeys(xs, key)
    ensures DistinctKeys(ys, key)
  {
    forall i, j | 0 <= i < j < |ys| ensures key(ys[i]) != key(ys[j]) {
      if key(ys[i]) == key(ys[j]) {
        assert ys[i] in multiset(xs) && ys[j] in multiset(xs);
        SameKeySameElement(xs, key, ys[i], ys[j]);
        TwiceInSequence(ys, i, j);
        OnceInDistinct(xs, key, ys[i]);
      }
    }
  }

  lemma TwiceInSequence<T>(ys: seq<T>, i: nat, j: nat)
    requires i < j < |ys| && ys[i] == ys[j]
    ensures multiset(ys)[ys[i]] >= 2
  {
    assert ys == ys[..j] + ys[j..];
    assert ys[i] in ys[..j] && ys[j] in ys[j..];
    assert multiset(ys[..j])[ys[i]] >= 1 && multiset(ys[j..])[ys[i]] >= 1;
  }

  lemma {:induction false} OnceInDistinct<T>(xs: seq<T>, key: T -> int, x: T)
    requires DistinctKeys(xs, key)
    ensures multiset(xs)[x] <= 1
    decreases |xs|
  {
    if xs != [] {
      HeadNotInTail(xs, key);
      OnceInDistinct(xs[1..], key, x);
      CountOfHeadAndTail(xs, x);
    }
  }

  lemma HeadNotInTail<T>(xs: seq<T>, key: T -> int)
    requires xs != [] && DistinctKeys(xs, key)
    ensures xs[0] !in xs[1..] && DistinctKeys(xs[1..], key)
  {
    assert forall j | 0 <= j < |xs| - 1 :: xs[1..][j] == xs[j + 1];
  }

  lemma CountOfHeadAndTail<T>(xs: seq<T>, x: T)
    requires xs != []
    ensures multiset(xs)[x] == multiset(xs[1..])[x] + if xs[0] == x then 1 else 0
  {
    assert xs == [xs[0]] + xs[1..];
  }

  /** Of the smallest key there is, and the first such element. */
  predicate IsFirstLeast<T(==)>(xs: seq<T>, least: T, key: T -> int) {
    exists i | 0 <= i < |xs| ::
      && xs[i] == least
      && (forall j | 0 <= j < |xs| :: key(least) <= key(xs[j]))
      && (forall j | 0 <= j < i :: key(least) < key(xs[j]))
  }

  lemma {:induction false} SortPutsFirstLeastFirst<T>(xs: seq<T>, key: T -> int)
    requires xs != []
    ensures Sort(xs, key) != [] && IsFirstLeast(xs, Sort(xs, key)[0], key)
    decreases |xs|
  {
    var init, x := xs[..|xs| - 1], xs[|xs| - 1];
    if init == [] {
      assert xs[0] == x;
    } else {
      SortPutsFirstLeastFirst(init, key);
      var least := Sort(init, key)[0];
      var i :| 0 <= i < |init| && init[i] == least
               && (forall j | 0 <= j < |init| :: key(least) <= key(init[j]))
               && (forall j | 0 <= j < i :: key(least) < key(init[j]));
      var at := if key(least) <= key(x) then i else |init|;
      assert xs[at] == Sort(xs, key)[0];
      assert forall j | 0 <= j < |init| :: xs[j] == init[j];
    }
  }
}
