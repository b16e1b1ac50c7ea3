/** The orders the source sorts by: Rust's `Ord` on strings, on `Ipv4`, on
    `Option<Ipv4>` and on the tuples built from them, each proved a total order. */
module Orders {
  import opened Results
  import opened Ipv4Cidr
  import opened Lists

  // ----- strings -----

  /** `Ord` for `String`: lexicographic by character, a prefix first. Comparing UTF-8
      bytes, as Rust does, gives the same order as comparing code points. */
  predicate StrLe(a: string, b: string)
    decreases |a|
  {
    if |a| == 0 then true
    else if |b| == 0 then false
    else if a[0] != b[0] then a[0] < b[0]
    else StrLe(a[1..], b[1..])
  }

  lemma {:induction false} StrLeTotalAt(a: string, b: string)
    ensures StrLe(a, b) || StrLe(b, a)
    ensures StrLe(a, b) && StrLe(b, a) ==> a == b
    decreases |a|
  {
    if |a| > 0 && |b| > 0 && a[0] == b[0] {
      StrLeTotalAt(a[1..], b[1..]);
      assert a == [a[0]] + a[1..] && b == [b[0]] + b[1..];
    }
  }

  lemma {:induction false} StrLeTrans(a: string, b: string, c: string)
    requires StrLe(a, b) && StrLe(b, c)
    ensures StrLe(a, c)
    decreases |a|
  {
    if |a| > 0 && |b| > 0 && |c| > 0 && a[0] == b[0] && b[0] == c[0] {
      StrLeTrans(a[1..], b[1..], c[1..]);
    }
  }

  /** String comparison is a total order. */
  lemma StrLeTotalOrder()
    ensures TotalOrder(StrLe)
  {
    forall a, b
      ensures StrLe(a, b) || StrLe(b, a)
      ensures StrLe(a, b) && StrLe(b, a) ==> a == b
    {
      StrLeTotalAt(a, b);
    }
    forall a, b, c | StrLe(a, b) && StrLe(b, c)
      ensures StrLe(a, c)
    {
      StrLeTrans(a, b, c);
    }
  }

  // ----- blocks -----

  /** The derived order on blocks is a total order. */
  lemma CidrTotalOrder()
    ensures TotalOrder(LessEq)
  {
  }

  /** `Ord` for `Option<Ipv4>`: an absent block before every block. */
  predicate OptCidrLe(a: Option<Ipv4>, b: Option<Ipv4>) {
    match (a, b)
    case (None, _) => true
    case (Some(_), None) => false
    case (Some(x), Some(y)) => LessEq(x, y)
  }

  lemma OptCidrTotalOrder()
    ensures TotalOrder(OptCidrLe)
  {
  }

  // ----- tuples -----

  /** `Ord` for `(Option<Ipv4>, String)`: by block, then by string. */
  predicate CidrStrLe(a: (Option<Ipv4>, string), b: (Option<Ipv4>, string)) {
    if a.0 == b.0 then StrLe(a.1, b.1) else OptCidrLe(a.0, b.0)
  }

  lemma CidrStrTotalOrder()
    ensures TotalOrder(CidrStrLe)
  {
    StrLeTotalOrder();
    OptCidrTotalOrder();
  }

  /** The order of `filter_overlapping_vnets`'s `sort_by`: more subnets first, then by
      subscription name. */
  predicate MoreThenNameLe(a: (nat, string), b: (nat, string)) {
    a.0 > b.0 || (a.0 == b.0 && StrLe(a.1, b.1))
  }

  lemma MoreThenNameTotalOrder()
    ensures TotalOrder(MoreThenNameLe)
  {
    StrLeTotalOrder();
  }
}
