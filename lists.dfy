/** The standard-library list operations the processing code relies on, as functions
    with their properties: `Vec::retain`, the stable `sort_by_key` / `sort_by`, and
    `Vec::dedup_by_key`. The source calls them on vectors it owns; each is a function
    of the old contents here, and the callers reassign. */
module Lists {

  /** Concatenation is associative; a named step for long proofs. */
  lemma ConcatAssoc<T>(a: seq<T>, b: seq<T>, c: seq<T>)
    ensures a + b + c == a + (b + c)
  {
  }

  // ----- retain -----

  /** `retain`: the elements that pass `keep`, in their order. */
  function Retain<T(!new)>(xs: seq<T>, keep: T -> bool): (r: seq<T>)
    ensures |r| <= |xs|
    decreases |xs|
  {
    if |xs| == 0 then []
    else
      var init := Retain(xs[..|xs| - 1], keep);
      if keep(xs[|xs| - 1]) then init + [xs[|xs| - 1]] else init
  }

  /** What is kept: exactly the elements that pass, each no more often than before. */
  lemma {:induction false} RetainMembers<T(!new)>(xs: seq<T>, keep: T -> bool)
    ensures forall x :: x in Retain(xs, keep) <==> x in xs && keep(x)
    ensures multiset(Retain(xs, keep)) <= multiset(xs)
    decreases |xs|
  {
    if |xs| > 0 {
      RetainMembers(xs[..|xs| - 1], keep);
      assert xs == xs[..|xs| - 1] + [xs[|xs| - 1]];
    }
  }

  /** Retaining from a concatenation retains from each part. */
  lemma {:induction false} RetainConcat<T(!new)>(a: seq<T>, b: seq<T>, keep: T -> bool)
    ensures Retain(a + b, keep) == Retain(a, keep) + Retain(b, keep)
    decreases |b|
  {
    if |b| > 0 {
      var ab := a + b;
      var b0 := b[..|b| - 1];
      assert ab[..|ab| - 1] == a + b0;
      assert ab[|ab| - 1] == b[|b| - 1];
      RetainConcat(a, b0, keep);
    } else {
      assert a + b == a;
    }
  }

  /** Retaining from a sequence that starts with `x`. */
  lemma RetainCons<T(!new)>(x: T, xs: seq<T>, keep: T -> bool)
    ensures Retain([x] + xs, keep) == (if keep(x) then [x] else []) + Retain(xs, keep)
  {
    RetainConcat([x], xs, keep);
    assert [x][..0] == [];
  }

  /** Nothing passes: nothing is kept. */
  lemma {:induction false} RetainNone<T(!new)>(xs: seq<T>, keep: T -> bool)
    requires forall x :: x in xs ==> !keep(x)
    ensures Retain(xs, keep) == []
  {
    if |xs| > 0 {
      assert forall x :: x in xs[..|xs| - 1] ==> x in xs;
      RetainNone(xs[..|xs| - 1], keep);
    }
  }

  /** Everything passes: the sequence is kept as it is. */
  lemma {:induction false} RetainAll<T(!new)>(xs: seq<T>, keep: T -> bool)
    requires forall x :: x in xs ==> keep(x)
    ensures Retain(xs, keep) == xs
  {
    if |xs| > 0 {
      assert forall x :: x in xs[..|xs| - 1] ==> x in xs;
      RetainAll(xs[..|xs| - 1], keep);
      assert xs == xs[..|xs| - 1] + [xs[|xs| - 1]];
    }
  }

  // ----- keys and orders -----

  /** The test "has key `k`". */
  function KeyIs<T(!new), K(==)>(key: T -> K, k: K): (p: T -> bool)
    ensures forall y :: p(y) == (key(y) == k)
  {
    y => key(y) == k
  }

  /** A total order on keys: total, antisymmetric and transitive (so also reflexive). */
  ghost predicate TotalOrder<K(!new)>(le: (K, K) -> bool) {
    (forall a, b :: le(a, b) || le(b, a))
    && (forall a, b :: le(a, b) && le(b, a) ==> a == b)
    && (forall a, b, c :: le(a, b) && le(b, c) ==> le(a, c))
  }

  /** Every element's key is at most every later element's key. */
  predicate SortedBy<T(!new), K>(xs: seq<T>, key: T -> K, le: (K, K) -> bool) {
    forall i, j :: 0 <= i < j < |xs| ==> le(key(xs[i]), key(xs[j]))
  }

  /** No two elements share a key. */
  predicate DistinctKeys<T(!new), K(==)>(xs: seq<T>, key: T -> K) {
    forall i, j :: 0 <= i < j < |xs| ==> key(xs[i]) != key(xs[j])
  }

  // ----- stable sort -----

  /** Inserts `x` after every element whose key is at most its own. */
  function Insert<T(!new), K>(xs: seq<T>, x: T, key: T -> K, le: (K, K) -> bool): (r: seq<T>)
    ensures |r| == |xs| + 1
  {
    if |xs| == 0 then [x]
    else if !le(key(xs[0]), key(x)) then [x] + xs
    else [xs[0]] + Insert(xs[1..], x, key, le)
  }

  /** Inserting adds `x` and nothing else. */
  lemma {:induction false} InsertMembers<T(!new), K>(xs: seq<T>, x: T, key: T -> K, le: (K, K) -> bool)
    ensures multiset(Insert(xs, x, key, le)) == multiset(xs) + multiset{x}
    ensures forall y :: y in Insert(xs, x, key, le) <==> y in xs || y == x
  {
    if |xs| > 0 && le(key(xs[0]), key(x)) {
      InsertMembers(xs[1..], x, key, le);
      assert xs == [xs[0]] + xs[1..];
    }
  }

  /** `sort_by_key` / `sort_by`: a stable sort, here insertion sort, whose result is the
      only stable ordering of the input. */
  function SortByKey<T(!new), K>(xs: seq<T>, key: T -> K, le: (K, K) -> bool): (r: seq<T>)
    ensures |r| == |xs|
    decreases |xs|
  {
    if |xs| == 0 then []
    else
      Insert(SortByKey(xs[..|xs| - 1], key, le), xs[|xs| - 1], key, le)
  }

  lemma {:induction false} InsertSorted<T(!new), K(!new)>(xs: seq<T>, x: T, key: T -> K, le: (K, K) -> bool)
    requires TotalOrder(le) && SortedBy(xs, key, le)
    ensures SortedBy(Insert(xs, x, key, le), key, le)
    decreases |xs|
  {
    if |xs| > 0 && le(key(xs[0]), key(x)) {
      var tail := xs[1..];
      InsertSorted(tail, x, key, le);
      var r := Insert(xs, x, key, le);
      var t := Insert(tail, x, key, le);
      assert r == [xs[0]] + t;
      InsertMembers(tail, x, key, le);
      forall j | 0 < j < |r|
        ensures le(key(r[0]), key(r[j]))
      {
        assert r[j] in t;
        if r[j] != x {
          assert r[j] in tail;
          var h :| 0 <= h < |tail| && tail[h] == r[j];
          assert r[j] == xs[h + 1];
        }
      }
    }
  }

  /** The sort orders by key, and is a permutation. */
  lemma {:induction false} SortByKeySorted<T(!new), K(!new)>(xs: seq<T>, key: T -> K, le: (K, K) -> bool)
    requires TotalOrder(le)
    ensures SortedBy(SortByKey(xs, key, le), key, le)
    ensures multiset(SortByKey(xs, key, le)) == multiset(xs)
    decreases |xs|
  {
    if |xs| > 0 {
      SortByKeySorted(xs[..|xs| - 1], key, le);
      InsertSorted(SortByKey(xs[..|xs| - 1], key, le), xs[|xs| - 1], key, le);
      InsertMembers(SortByKey(xs[..|xs| - 1], key, le), xs[|xs| - 1], key, le);
      assert xs == xs[..|xs| - 1] + [xs[|xs| - 1]];
    }
  }

  /** Inserting into a sorted sequence puts `x` after all elements with its key. */
  lemma {:induction false} InsertStable<T(!new), K(!new)>(xs: seq<T>, x: T, key: T -> K, le: (K, K) -> bool, k: K)
    requires TotalOrder(le) && SortedBy(xs, key, le)
    ensures Retain(Insert(xs, x, key, le), KeyIs(key, k))
      == Retain(xs, KeyIs(key, k)) + (if key(x) == k then [x] else [])
    decreases |xs|
  {
    var p := KeyIs(key, k);
    if |xs| == 0 {
      assert Insert(xs, x, key, le) == [x];
      assert [x][..0] == [];
    } else if !le(key(xs[0]), key(x)) {
      InsertFrontStable(xs, x, key, le, k);
    } else {
      InsertStable(xs[1..], x, key, le, k);
      InsertSkipStable(xs, x, key, le, k);
    }
  }

  /** `x` goes in front: it comes before everything else with its key, of which there
      is nothing. */
  lemma InsertFrontStable<T(!new), K(!new)>(xs: seq<T>, x: T, key: T -> K, le: (K, K) -> bool, k: K)
    requires TotalOrder(le) && SortedBy(xs, key, le)
    requires |xs| > 0 && !le(key(xs[0]), key(x))
    ensures Retain(Insert(xs, x, key, le), KeyIs(key, k))
      == Retain(xs, KeyIs(key, k)) + (if key(x) == k then [x] else [])
  {
    var p := KeyIs(key, k);
    assert Insert(xs, x, key, le) == [x] + xs;
    RetainCons(x, xs, p);
    if key(x) == k {
      AllAfter(xs, x, key, le);
      RetainNone(xs, p);
    }
  }

  /** `x` goes after the first element: retaining commutes with that step. */
  lemma InsertSkipStable<T(!new), K>(xs: seq<T>, x: T, key: T -> K, le: (K, K) -> bool, k: K)
    requires |xs| > 0 && le(key(xs[0]), key(x))
    requires Retain(Insert(xs[1..], x, key, le), KeyIs(key, k))
      == Retain(xs[1..], KeyIs(key, k)) + (if key(x) == k then [x] else [])
    ensures Retain(Insert(xs, x, key, le), KeyIs(key, k))
      == Retain(xs, KeyIs(key, k)) + (if key(x) == k then [x] else [])
  {
    var p := KeyIs(key, k);
    var e: seq<T> := if key(x) == k then [x] else [];
    var tail := xs[1..];
    var t := Insert(tail, x, key, le);
    var h: seq<T> := if key(xs[0]) == k then [xs[0]] else [];
    assert Retain(Insert(xs, x, key, le), p) == h + Retain(t, p) by {
      assert Insert(xs, x, key, le) == [xs[0]] + t;
      RetainCons(xs[0], t, p);
    }
    assert Retain(xs, p) == h + Retain(tail, p) by {
      assert xs == [xs[0]] + tail;
      RetainCons(xs[0], tail, p);
    }
    ConcatAssoc(h, Retain(tail, p), e);
  }

  /** When `x` goes in front of a sorted sequence, no element there has its key. */
  lemma AllAfter<T(!new), K(!new)>(xs: seq<T>, x: T, key: T -> K, le: (K, K) -> bool)
    requires TotalOrder(le) && SortedBy(xs, key, le)
    requires |xs| > 0 && !le(key(xs[0]), key(x))
    ensures forall y :: y in xs ==> key(y) != key(x)
  {
    forall y | y in xs
      ensures key(y) != key(x)
    {
      var h :| 0 <= h < |xs| && xs[h] == y;
      if h > 0 {
        assert le(key(xs[0]), key(xs[h]));
      }
    }
  }

  /** Stability: the elements with any one key keep their order. */
  lemma {:induction false} SortByKeyStable<T(!new), K(!new)>(xs: seq<T>, key: T -> K, le: (K, K) -> bool, k: K)
    requires TotalOrder(le)
    ensures Retain(SortByKey(xs, key, le), KeyIs(key, k)) == Retain(xs, KeyIs(key, k))
    decreases |xs|
  {
    if |xs| > 0 {
      var init := xs[..|xs| - 1];
      SortByKeyStable(init, key, le, k);
      SortByKeySorted(init, key, le);
      InsertStable(SortByKey(init, key, le), xs[|xs| - 1], key, le, k);
    }
  }

  /** An element whose key is at least every key already there goes at the end. */
  lemma {:induction false} InsertLast<T(!new), K>(xs: seq<T>, x: T, key: T -> K, le: (K, K) -> bool)
    requires forall i :: 0 <= i < |xs| ==> le(key(xs[i]), key(x))
    ensures Insert(xs, x, key, le) == xs + [x]
    decreases |xs|
  {
    if |xs| > 0 {
      InsertLast(xs[1..], x, key, le);
      assert xs == [xs[0]] + xs[1..];
    }
  }

  /** Sorting what is already sorted changes nothing. */
  lemma {:induction false} SortByKeyOfSorted<T(!new), K>(xs: seq<T>, key: T -> K, le: (K, K) -> bool)
    requires SortedBy(xs, key, le)
    ensures SortByKey(xs, key, le) == xs
    decreases |xs|
  {
    if |xs| > 0 {
      var init := xs[..|xs| - 1];
      assert SortedBy(init, key, le);
      SortByKeyOfSorted(init, key, le);
      InsertLast(init, xs[|xs| - 1], key, le);
      assert init + [xs[|xs| - 1]] == xs;
    }
  }

  // ----- dedup -----

  /** `xs` is not empty and its first element is `x`. */
  ghost predicate StartsWith<T>(xs: seq<T>, x: T) {
    |xs| > 0 && xs[0] == x
  }

  /** `x` is the first element of `xs` with its key. */
  ghost predicate FirstWithKey<T(!new), K>(xs: seq<T>, key: T -> K, x: T) {
    StartsWith(Retain(xs, KeyIs(key, key(x))), x)
  }

  /** `dedup_by_key`: drops every element whose key equals that of the last element
      kept before it. */
  function DedupByKey<T(!new), K(==)>(xs: seq<T>, key: T -> K): (r: seq<T>)
    ensures |r| <= |xs|
    ensures forall y :: y in r ==> y in xs
    ensures |xs| > 0 ==> |r| > 0 && key(r[|r| - 1]) == key(xs[|xs| - 1])
    ensures forall i :: 0 <= i < |r| - 1 ==> key(r[i]) != key(r[i + 1])
    decreases |xs|
  {
    if |xs| == 0 then []
    else
      var init := DedupByKey(xs[..|xs| - 1], key);
      var x := xs[|xs| - 1];
      assert forall y :: y in xs[..|xs| - 1] ==> y in xs;
      if |init| > 0 && key(init[|init| - 1]) == key(x) then init else init + [x]
  }

  /** No key is lost: every input key is the key of some output element. */
  lemma {:induction false} DedupKeepsKeys<T(!new), K>(xs: seq<T>, key: T -> K, y: T)
    requires y in xs
    ensures exists z :: z in DedupByKey(xs, key) && key(z) == key(y)
    decreases |xs|
  {
    var r := DedupByKey(xs, key);
    if y == xs[|xs| - 1] {
      assert r[|r| - 1] in r;
    } else {
      var init := xs[..|xs| - 1];
      assert y in init;
      DedupKeepsKeys(init, key, y);
      var z :| z in DedupByKey(init, key) && key(z) == key(y);
      assert z in r;
    }
  }

  /** Deduplicating what has no repeated key changes nothing. */
  lemma {:induction false} DedupOfDistinct<T(!new), K>(xs: seq<T>, key: T -> K)
    requires DistinctKeys(xs, key)
    ensures DedupByKey(xs, key) == xs
    decreases |xs|
  {
    if |xs| > 0 {
      var n := |xs| - 1;
      var init := xs[..n];
      forall i, j | 0 <= i < j < |init|
        ensures key(init[i]) != key(init[j])
      {
        assert init[i] == xs[i] && init[j] == xs[j];
      }
      DedupOfDistinct(init, key);
      if n > 0 {
        assert init[n - 1] == xs[n - 1];
        assert key(xs[n - 1]) != key(xs[n]);
      }
      assert init + [xs[n]] == xs;
    }
  }

  /** Deduplicating a sorted sequence keeps it sorted. */
  lemma {:induction false} DedupSorted<T(!new), K(!new)>(xs: seq<T>, key: T -> K, le: (K, K) -> bool)
    requires SortedBy(xs, key, le)
    ensures SortedBy(DedupByKey(xs, key), key, le)
    decreases |xs|
  {
    if |xs| > 0 {
      var init := xs[..|xs| - 1];
      var x := xs[|xs| - 1];
      var ri := DedupByKey(init, key);
      DedupSorted(init, key, le);
      forall y | y in ri
        ensures le(key(y), key(x))
      {
        assert y in init;
        var h :| 0 <= h < |init| && init[h] == y;
      }
    }
  }

  /** In a deduplicated sorted sequence the keys strictly increase, so no key occurs
      twice. */
  lemma DedupSortedDistinct<T(!new), K(!new)>(xs: seq<T>, key: T -> K, le: (K, K) -> bool)
    requires TotalOrder(le) && SortedBy(xs, key, le)
    ensures DistinctKeys(DedupByKey(xs, key), key)
  {
    var r := DedupByKey(xs, key);
    DedupSorted(xs, key, le);
    forall i, j | 0 <= i < j < |r|
      ensures key(r[i]) != key(r[j])
    {
      assert le(key(r[i]), key(r[i + 1])) && le(key(r[i + 1]), key(r[j]));
    }
  }

  /** From a sorted sequence, each kept element is the first element with its key. */
  lemma {:induction false} DedupKeepsFirst<T(!new), K(!new)>(xs: seq<T>, key: T -> K, le: (K, K) -> bool)
    requires TotalOrder(le) && SortedBy(xs, key, le)
    ensures var r := DedupByKey(xs, key);
      forall j :: 0 <= j < |r| ==> FirstWithKey(xs, key, r[j])
    decreases |xs|
  {
    if |xs| > 0 {
      var r := DedupByKey(xs, key);
      DedupKeepsFirst(xs[..|xs| - 1], key, le);
      forall j | 0 <= j < |r|
        ensures FirstWithKey(xs, key, r[j])
      {
        DedupKeepsFirstStep(xs, key, le, j);
      }
    }
  }

  /** One element of the deduplicated sequence, given the property for the same
      position without the last input element. */
  lemma DedupKeepsFirstStep<T(!new), K(!new)>(xs: seq<T>, key: T -> K, le: (K, K) -> bool, j: nat)
    requires TotalOrder(le) && SortedBy(xs, key, le) && |xs| > 0
    requires var ri := DedupByKey(xs[..|xs| - 1], key);
      j < |ri| ==> FirstWithKey(xs[..|xs| - 1], key, ri[j])
    requires j < |DedupByKey(xs, key)|
    ensures var r := DedupByKey(xs, key); FirstWithKey(xs, key, r[j])
  {
    var r := DedupByKey(xs, key);
    var init := xs[..|xs| - 1];
    var ri := DedupByKey(init, key);
    var p := KeyIs(key, key(r[j]));
    if j < |ri| {
      assert r[j] == ri[j];
      assert StartsWith(Retain(init, p), r[j]);
      assert xs == init + [xs[|xs| - 1]];
    } else {
      assert Retain(init, p) == [] by {
        NoEarlierKey(xs, key, le);
        RetainNone(init, p);
      }
      assert xs == init + [xs[|xs| - 1]];
    }
  }

  /** The last element of a sorted sequence is kept only when no earlier element has
      its key. */
  lemma NoEarlierKey<T(!new), K(!new)>(xs: seq<T>, key: T -> K, le: (K, K) -> bool)
    requires TotalOrder(le) && SortedBy(xs, key, le) && |xs| > 0
    requires |DedupByKey(xs, key)| == |DedupByKey(xs[..|xs| - 1], key)| + 1
    ensures forall y :: y in xs[..|xs| - 1] ==> key(y) != key(xs[|xs| - 1])
  {
    var init := xs[..|xs| - 1];
    var x := xs[|xs| - 1];
    var ri := DedupByKey(init, key);
    forall y | y in init
      ensures key(y) != key(x)
    {
      var h :| 0 <= h < |init| && init[h] == y;
      var last := |init| - 1;
      if h < last {
        assert le(key(xs[h]), key(xs[last]));
      }
      assert le(key(xs[last]), key(xs[|xs| - 1]));
      assert init[last] == xs[last];
      assert key(ri[|ri| - 1]) == key(xs[last]);
    }
  }

  /** An element found at two positions is counted at least twice. */
  lemma TwiceCounted<T>(ys: seq<T>, i: nat, j: nat)
    requires i < j < |ys| && ys[i] == ys[j]
    ensures multiset(ys)[ys[i]] >= 2
  {
    assert ys == ys[..j] + [ys[j]] + ys[j + 1..];
    assert ys[..j][i] == ys[i];
  }

  /** When no two elements share a key, no element occurs twice. */
  lemma {:induction false} AtMostOnce<T(!new), K>(xs: seq<T>, key: T -> K)
    requires DistinctKeys(xs, key)
    ensures forall x :: multiset(xs)[x] <= 1
    decreases |xs|
  {
    if |xs| > 0 {
      var n := |xs| - 1;
      var init := xs[..n];
      AtMostOnce(init, key);
      assert xs == init + [xs[n]];
      assert xs[n] !in init by {
        forall i | 0 <= i < n ensures init[i] != xs[n] {
          assert key(xs[i]) != key(xs[n]);
        }
      }
    }
  }

  /** Rearranging keeps the keys distinct. */
  lemma DistinctKeysPermutation<T(!new), K>(xs: seq<T>, ys: seq<T>, key: T -> K)
    requires multiset(xs) == multiset(ys) && DistinctKeys(xs, key)
    ensures DistinctKeys(ys, key)
  {
    forall i, j | 0 <= i < j < |ys|
      ensures key(ys[i]) != key(ys[j])
    {
      assert ys[i] in multiset(xs) && ys[j] in multiset(xs);
      var p :| 0 <= p < |xs| && xs[p] == ys[i];
      var q :| 0 <= q < |xs| && xs[q] == ys[j];
      if p == q {
        TwiceCounted(ys, i, j);
        AtMostOnce(xs, key);
        assert false;
      }
    }
  }

  // ----- concatenating per-element lists -----

  /** The lists `f` gives for the elements, one after the other. */
  function FlatMap<A, B>(xs: seq<A>, f: A -> seq<B>): (r: seq<B>)
    decreases |xs|
  {
    if |xs| == 0 then [] else FlatMap(xs[..|xs| - 1], f) + f(xs[|xs| - 1])
  }

  /** The concatenation for two elements. */
  lemma FlatMapPair<A, B>(x: A, y: A, f: A -> seq<B>)
    ensures FlatMap([x, y], f) == f(x) + f(y)
  {
    assert [x, y][..1] == [x] && [x][..0] == [];
    assert FlatMap([x], f) == FlatMap([], f) + f(x);
  }

  /** An element is in the concatenation exactly when it is in one of the lists. */
  lemma {:induction false} FlatMapMembers<A, B>(xs: seq<A>, f: A -> seq<B>, y: B)
    ensures y in FlatMap(xs, f) <==> exists i :: 0 <= i < |xs| && y in f(xs[i])
    decreases |xs|
  {
    if |xs| > 0 {
      var n := |xs| - 1;
      var init := xs[..n];
      FlatMapMembers(init, f, y);
      if y in FlatMap(init, f) {
        var i :| 0 <= i < |init| && y in f(init[i]);
        assert init[i] == xs[i];
      }
      if exists i :: 0 <= i < |xs| && y in f(xs[i]) {
        var i :| 0 <= i < |xs| && y in f(xs[i]);
        if i < n {
          assert init[i] == xs[i];
        }
      }
    }
  }

  // ----- the keys of a sequence -----

  /** The distinct keys of the elements. */
  ghost function KeySet<T(!new), K>(xs: seq<T>, key: T -> K): set<K>
    decreases |xs|
  {
    if |xs| == 0 then {} else KeySet(xs[..|xs| - 1], key) + {key(xs[|xs| - 1])}
  }

  /** A key is in the set exactly when some element has it. */
  lemma {:induction false} KeySetMembers<T(!new), K>(xs: seq<T>, key: T -> K)
    ensures forall i :: 0 <= i < |xs| ==> key(xs[i]) in KeySet(xs, key)
    ensures forall k :: k in KeySet(xs, key) ==> exists i :: 0 <= i < |xs| && key(xs[i]) == k
    decreases |xs|
  {
    if |xs| > 0 {
      var n := |xs| - 1;
      KeySetMembers(xs[..n], key);
      assert forall i :: 0 <= i < n ==> xs[..n][i] == xs[i];
    }
  }

  /** The keys of a sequence whose elements all occur in another are keys of that
      other. */
  lemma KeySetSub<T(!new), K>(xs: seq<T>, ys: seq<T>, key: T -> K)
    requires forall x :: x in xs ==> x in ys
    ensures KeySet(xs, key) <= KeySet(ys, key)
  {
    KeySetMembers(xs, key);
    KeySetMembers(ys, key);
    forall k | k in KeySet(xs, key)
      ensures k in KeySet(ys, key)
    {
      var i :| 0 <= i < |xs| && key(xs[i]) == k;
      assert xs[i] in ys;
      var j :| 0 <= j < |ys| && ys[j] == xs[i];
    }
  }

  /** When no two elements share a key there are as many keys as elements. */
  lemma {:induction false} DistinctKeysCount<T(!new), K>(xs: seq<T>, key: T -> K)
    requires DistinctKeys(xs, key)
    ensures |KeySet(xs, key)| == |xs|
    decreases |xs|
  {
    if |xs| > 0 {
      var n := |xs| - 1;
      var init := xs[..n];
      DistinctKeysCount(init, key);
      KeySetMembers(init, key);
      forall k | k in KeySet(init, key)
        ensures k != key(xs[n])
      {
        var i :| 0 <= i < n && key(init[i]) == k;
        assert init[i] == xs[i];
      }
    }
  }

  /** Deduplicating keeps every key and adds none. */
  lemma DedupKeySet<T(!new), K>(xs: seq<T>, key: T -> K)
    ensures KeySet(DedupByKey(xs, key), key) == KeySet(xs, key)
  {
    var r := DedupByKey(xs, key);
    KeySetSub(r, xs, key);
    KeySetMembers(xs, key);
    KeySetMembers(r, key);
    forall k | k in KeySet(xs, key)
      ensures k in KeySet(r, key)
    {
      var i :| 0 <= i < |xs| && key(xs[i]) == k;
      DedupKeepsKeys(xs, key, xs[i]);
      var z :| z in r && key(z) == k;
      var j :| 0 <= j < |r| && r[j] == z;
    }
  }

  // ----- subsequences -----

  /** `xs` is `ys` with some elements left out, the rest in their order. */
  ghost predicate IsSubsequence<T>(xs: seq<T>, ys: seq<T>)
    decreases |ys|
  {
    if |ys| == 0 then |xs| == 0
    else
      (|xs| > 0 && xs[|xs| - 1] == ys[|ys| - 1] && IsSubsequence(xs[..|xs| - 1], ys[..|ys| - 1]))
      || IsSubsequence(xs, ys[..|ys| - 1])
  }

  /** Every element of a subsequence is an element of the whole. */
  lemma {:induction false} SubsequenceMembers<T>(xs: seq<T>, ys: seq<T>)
    requires IsSubsequence(xs, ys)
    ensures forall x :: x in xs ==> x in ys
    decreases |ys|
  {
    if |ys| > 0 {
      var yi := ys[..|ys| - 1];
      assert ys == yi + [ys[|ys| - 1]];
      if |xs| > 0 && xs[|xs| - 1] == ys[|ys| - 1] && IsSubsequence(xs[..|xs| - 1], yi) {
        SubsequenceMembers(xs[..|xs| - 1], yi);
        assert xs == xs[..|xs| - 1] + [xs[|xs| - 1]];
      } else {
        SubsequenceMembers(xs, yi);
      }
    }
  }

  /** A subsequence stays one when the whole grows, and grows with it. */
  lemma SubsequenceSnoc<T>(xs: seq<T>, ys: seq<T>, y: T)
    requires IsSubsequence(xs, ys)
    ensures IsSubsequence(xs, ys + [y]) && IsSubsequence(xs + [y], ys + [y])
  {
    assert (ys + [y])[..|ys|] == ys;
    assert (xs + [y])[..|xs|] == xs;
  }
}
