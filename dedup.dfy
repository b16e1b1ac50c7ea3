/** The de-duplication of `processing/dedup.rs`: records with an ignored name or
    without a block are dropped, the rest are sorted by block and subscription id, and
    of each run of equal keys only the first is kept. */
module Dedup {
  import opened Results
  import opened Ipv4Cidr
  import opened Records
  import opened Lists
  import opened Orders

  /** `default_subnet_names_to_ignore`. */
  function DefaultSubnetNamesToIgnore(): (names: seq<string>)
    ensures |names| == 8
  {
    ["default", "jenkinsarm-snet", "pkrsn1ooslfxj77", "pkrsn8jufz9plf6", "pkrsnsnajtq3h3i",
     "pkrsnxocivqofa6", "orggmcmg", "restore-vm-subnet"]
  }

  /** The test `retain` applies: a name not to ignore, and a block. */
  function Passes(names: seq<string>): (p: Subnet -> bool)
    ensures forall s :: p(s) == (s.subnetName !in names && s.subnetCidr.Some?)
  {
    (s: Subnet) => s.subnetName !in names && s.subnetCidr.Some?
  }

  /** What `de_duplicate_subnets` leaves of the records, given the names to ignore. */
  function Deduplicated(data: seq<Subnet>, names: seq<string>): seq<Subnet> {
    DedupByKey(SortByKey(Retain(data, Passes(names)), CidrSubscription, CidrStrLe), CidrSubscription)
  }

  /** `de_duplicate_subnets`: `retain`, `sort_by_key` and `dedup_by_key` applied to the
      records in turn, with the default names when none are given. It never fails. */
  method DeDuplicateSubnets(data: seq<Subnet>, ignore: Option<seq<string>>) returns (r: Result<seq<Subnet>>)
    ensures r == Ok(Deduplicated(data, ignore.GetOr(DefaultSubnetNamesToIgnore())))
    ensures forall s :: s in r.value ==> s in data && Passes(ignore.GetOr(DefaultSubnetNamesToIgnore()))(s)
    ensures SortedBy(r.value, CidrSubscription, CidrStrLe)
    ensures DistinctKeys(r.value, CidrSubscription)
  {
    var names := ignore.GetOr(DefaultSubnetNamesToIgnore());
    var records := data;
    records := Retain(records, Passes(names));
    records := SortByKey(records, CidrSubscription, CidrStrLe);
    records := DedupByKey(records, CidrSubscription);
    DeduplicatedFiltered(data, names);
    DeduplicatedSorted(data, names);
    return Ok(records);
  }

  /** Every record left is an input record with a block and a name not ignored, and no
      more records are left than were given. */
  lemma DeduplicatedFiltered(data: seq<Subnet>, names: seq<string>)
    ensures var r := Deduplicated(data, names);
      |r| <= |data| && forall s :: s in r ==> s in data && s.subnetName !in names && s.subnetCidr.Some?
  {
    var kept := Retain(data, Passes(names));
    var sorted := SortByKey(kept, CidrSubscription, CidrStrLe);
    RetainMembers(data, Passes(names));
    SortedSameMembers(kept);
  }

  /** The sort keeps the records: the same multiset, so the same members. */
  lemma SortedSameMembers(kept: seq<Subnet>)
    ensures forall s :: s in SortByKey(kept, CidrSubscription, CidrStrLe) <==> s in kept
  {
    CidrStrTotalOrder();
    SortByKeySorted(kept, CidrSubscription, CidrStrLe);
    var sorted := SortByKey(kept, CidrSubscription, CidrStrLe);
    forall s
      ensures s in sorted <==> s in kept
    {
      assert s in sorted <==> s in multiset(sorted);
      assert s in kept <==> s in multiset(kept);
    }
  }

  /** The records left are sorted by block and subscription id, and no two share
      both. */
  lemma DeduplicatedSorted(data: seq<Subnet>, names: seq<string>)
    ensures SortedBy(Deduplicated(data, names), CidrSubscription, CidrStrLe)
    ensures DistinctKeys(Deduplicated(data, names), CidrSubscription)
  {
    var kept := Retain(data, Passes(names));
    var sorted := SortByKey(kept, CidrSubscription, CidrStrLe);
    CidrStrTotalOrder();
    SortByKeySorted(kept, CidrSubscription, CidrStrLe);
    DedupSorted(sorted, CidrSubscription, CidrStrLe);
    DedupSortedDistinct(sorted, CidrSubscription, CidrStrLe);
  }

  /** De-duplicating twice is de-duplicating once: what is left passes the filter, is
      sorted and has no repeated key, so each step leaves it as it is. */
  lemma DeduplicatedIdempotent(data: seq<Subnet>, names: seq<string>)
    ensures Deduplicated(Deduplicated(data, names), names) == Deduplicated(data, names)
  {
    var r := Deduplicated(data, names);
    DeduplicatedFiltered(data, names);
    DeduplicatedSorted(data, names);
    RetainAll(r, Passes(names));
    SortByKeyOfSorted(r, CidrSubscription, CidrStrLe);
    DedupOfDistinct(r, CidrSubscription);
  }

  /** The record kept for a block and subscription id is the first record, in input
      order, that has them and passes the filter. */
  lemma DeduplicatedKeepsFirst(data: seq<Subnet>, names: seq<string>)
    ensures forall j :: 0 <= j < |Deduplicated(data, names)| ==>
      FirstWithKey(Retain(data, Passes(names)), CidrSubscription, Deduplicated(data, names)[j])
  {
    SortedDedupKeepsFirst(Retain(data, Passes(names)));
  }

  lemma SortedDedupKeepsFirst(kept: seq<Subnet>)
    ensures forall j :: 0 <= j < |DedupByKey(SortByKey(kept, CidrSubscription, CidrStrLe), CidrSubscription)| ==>
      FirstWithKey(kept, CidrSubscription, DedupByKey(SortByKey(kept, CidrSubscription, CidrStrLe), CidrSubscription)[j])
  {
    var sorted := SortByKey(kept, CidrSubscription, CidrStrLe);
    var r := DedupByKey(sorted, CidrSubscription);
    CidrStrTotalOrder();
    SortByKeySorted(kept, CidrSubscription, CidrStrLe);
    DedupFirstOfSorted(sorted);
    forall j | 0 <= j < |r|
      ensures FirstWithKey(kept, CidrSubscription, r[j])
    {
      FirstInSortedIsFirst(kept, r[j]);
    }
  }

  lemma DedupFirstOfSorted(sorted: seq<Subnet>)
    requires SortedBy(sorted, CidrSubscription, CidrStrLe)
    ensures forall j :: 0 <= j < |DedupByKey(sorted, CidrSubscription)| ==>
      FirstWithKey(sorted, CidrSubscription, DedupByKey(sorted, CidrSubscription)[j])
  {
    CidrStrTotalOrder();
    DedupKeepsFirst(sorted, CidrSubscription, CidrStrLe);
  }

  /** The sort is stable, so the first record with a key is the same before and after
      it. */
  lemma FirstInSortedIsFirst(kept: seq<Subnet>, x: Subnet)
    requires FirstWithKey(SortByKey(kept, CidrSubscription, CidrStrLe), CidrSubscription, x)
    ensures FirstWithKey(kept, CidrSubscription, x)
  {
    CidrStrTotalOrder();
    SortByKeyStable(kept, CidrSubscription, CidrStrLe, CidrSubscription(x));
  }

  /** No key is lost: every record that passes the filter has its block and
      subscription id on some record left. */
  lemma DeduplicatedKeepsKeys(data: seq<Subnet>, names: seq<string>, s: Subnet)
    requires s in data && s.subnetName !in names && s.subnetCidr.Some?
    ensures exists t :: t in Deduplicated(data, names) && CidrSubscription(t) == CidrSubscription(s)
  {
    var kept := Retain(data, Passes(names));
    RetainMembers(data, Passes(names));
    SortedSameMembers(kept);
    DedupKeepsKeys(SortByKey(kept, CidrSubscription, CidrStrLe), CidrSubscription, s);
  }

  /** As many records are left as there are distinct keys among the records that pass
      the filter. */
  lemma DeduplicatedCount(data: seq<Subnet>, names: seq<string>)
    ensures |Deduplicated(data, names)| == |KeySet(Retain(data, Passes(names)), CidrSubscription)|
  {
    var kept := Retain(data, Passes(names));
    var sorted := SortByKey(kept, CidrSubscription, CidrStrLe);
    var r := DedupByKey(sorted, CidrSubscription);
    DeduplicatedSorted(data, names);
    DistinctKeysCount(r, CidrSubscription);
    DedupKeySet(sorted, CidrSubscription);
    SortedKeySet(kept);
  }

  lemma SortedKeySet(kept: seq<Subnet>)
    ensures KeySet(SortByKey(kept, CidrSubscription, CidrStrLe), CidrSubscription) == KeySet(kept, CidrSubscription)
  {
    var sorted := SortByKey(kept, CidrSubscription, CidrStrLe);
    SortedSameMembers(kept);
    KeySetSub(sorted, kept, CidrSubscription);
    KeySetSub(kept, sorted, CidrSubscription);
  }

  /** The number of records left does not depend on the input order: any reordering of
      the records leaves as many. */
  lemma DeduplicatedCountOrderFree(data: seq<Subnet>, other: seq<Subnet>, names: seq<string>)
    requires multiset(data) == multiset(other)
    ensures |Deduplicated(data, names)| == |Deduplicated(other, names)|
  {
    DeduplicatedCount(data, names);
    DeduplicatedCount(other, names);
    SameMembersSameKeys(data, other, Passes(names));
  }

  lemma SameMembersSameKeys(data: seq<Subnet>, other: seq<Subnet>, p: Subnet -> bool)
    requires multiset(data) == multiset(other)
    ensures KeySet(Retain(data, p), CidrSubscription) == KeySet(Retain(other, p), CidrSubscription)
  {
    RetainMembers(data, p);
    RetainMembers(other, p);
    forall s
      ensures s in data <==> s in other
    {
      assert s in data <==> s in multiset(data);
      assert s in other <==> s in multiset(other);
    }
    KeySetSub(Retain(data, p), Retain(other, p), CidrSubscription);
    KeySetSub(Retain(other, p), Retain(data, p), CidrSubscription);
  }
}
