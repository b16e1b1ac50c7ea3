/** The overlap detector of `processing/overlap.rs`: records are grouped into networks
    by network name and subscription id, the networks are grouped by the address blocks
    they list, and a block listed more than once is a conflict. Networks can be dropped
    by block (an exclusion list) or, for each conflict, all but one claimant.

    A `HashMap` is iterated in an order the source does not fix; where that order
    reaches a result, it is a parameter here (`vnetOrder`, `cidrOrder`): any
    enumeration of the map's keys without repeats. */
module Overlap {
  import opened Results
  import opened Ipv4Cidr
  import opened Records
  import opened Lists
  import opened Orders
  import opened Text

  /** A network's key: its name and its subscription id. */
  type Key = (string, string)

  /** `VnetInfo`: a network and how many records it has. */
  datatype VnetInfo = VnetInfo(
    vnetName: string,
    vnetCidr: seq<Ipv4>,
    subscriptionId: string,
    subscriptionName: string,
    location: string,
    subnetCount: nat)

  /** `OverlapConflict`: a block and the networks that list it. */
  datatype OverlapConflict = OverlapConflict(cidr: Ipv4, vnets: seq<VnetInfo>)

  /** `default_vnet_cidrs_to_exclude`. */
  function DefaultVnetCidrsToExclude(): (cidrs: seq<string>)
    ensures |cidrs| == 2
  {
    ["10.0.0.0/16", "10.1.0.0/16"]
  }

  /** `order` lists each key of `keys` exactly once: an iteration order of a map. */
  ghost predicate Enumerates<K(!new)>(order: seq<K>, keys: set<K>) {
    NoRepeats(order) && (forall k :: k in order <==> k in keys)
  }

  ghost predicate NoRepeats<K>(order: seq<K>) {
    forall i, j :: 0 <= i < j < |order| ==> order[i] != order[j]
  }

  // ----- networks -----

  function InfoKey(info: VnetInfo): Key {
    (info.vnetName, info.subscriptionId)
  }

  /** The network of record `s`, with one record. */
  function NewInfo(s: Subnet): (info: VnetInfo)
    ensures InfoKey(info) == VnetSubscriptionId(s) && info.subnetCount == 1
  {
    VnetInfo(s.vnetName, s.vnetCidr, s.subscriptionId, s.subscriptionName, s.location, 1)
  }

  /** `entry(key).and_modify(count + 1).or_insert_with(new)` for record `s`. */
  function Enter(seen: map<Key, VnetInfo>, s: Subnet): map<Key, VnetInfo> {
    var key := VnetSubscriptionId(s);
    if key in seen then seen[key := seen[key].(subnetCount := seen[key].subnetCount + 1)]
    else seen[key := NewInfo(s)]
  }

  /** The networks of the records, entered in order. */
  function Grouped(data: seq<Subnet>): map<Key, VnetInfo>
    decreases |data|
  {
    if |data| == 0 then map[] else Enter(Grouped(data[..|data| - 1]), data[|data| - 1])
  }

  /** The position of the first record with key `key`, or -1 when there is none. */
  function FirstWith(data: seq<Subnet>, key: Key): (k: int)
    ensures -1 <= k < |data|
    ensures k >= 0 ==> VnetSubscriptionId(data[k]) == key
    ensures forall j :: 0 <= j < |data| && (k < 0 || j < k) ==> VnetSubscriptionId(data[j]) != key
    decreases |data|
  {
    if |data| == 0 then -1
    else
      var n := |data| - 1;
      var k := FirstWith(data[..n], key);
      if k >= 0 then k else if VnetSubscriptionId(data[n]) == key then n else -1
  }

  /** The number of records with key `key`. */
  function CountWith(data: seq<Subnet>, key: Key): (c: nat)
    ensures c > 0 <==> FirstWith(data, key) >= 0
    decreases |data|
  {
    if |data| == 0 then 0
    else
      var n := |data| - 1;
      CountWith(data[..n], key) + (if VnetSubscriptionId(data[n]) == key then 1 else 0)
  }

  /** `info` is the network of key `key`: its fields are those of the first record
      with the key, and it counts every record with the key. */
  predicate Summarizes(info: VnetInfo, data: seq<Subnet>, key: Key) {
    var k := FirstWith(data, key);
    k >= 0 && info == NewInfo(data[k]).(subnetCount := CountWith(data, key))
  }

  /** There is one network per key of the records, taking its fields from the first
      record with the key and counting all records with it. */
  lemma {:induction false} GroupedSpec(data: seq<Subnet>)
    ensures forall key :: key in Grouped(data) <==> FirstWith(data, key) >= 0
    ensures forall key :: key in Grouped(data) ==> Summarizes(Grouped(data)[key], data, key)
    decreases |data|
  {
    if |data| > 0 {
      var n := |data| - 1;
      GroupedSpec(data[..n]);
      forall key
        ensures key in Grouped(data) <==> FirstWith(data, key) >= 0
        ensures key in Grouped(data) ==> Summarizes(Grouped(data)[key], data, key)
      {
        EnterStep(data, key);
      }
    }
  }

  lemma EnterStep(data: seq<Subnet>, key: Key)
    requires |data| > 0
    requires var init := data[..|data| - 1];
      (key in Grouped(init) <==> FirstWith(init, key) >= 0)
      && (key in Grouped(init) ==> Summarizes(Grouped(init)[key], init, key))
    ensures key in Grouped(data) <==> FirstWith(data, key) >= 0
    ensures key in Grouped(data) ==> Summarizes(Grouped(data)[key], data, key)
  {
    var n := |data| - 1;
    var init := data[..n];
    assert Grouped(data) == Enter(Grouped(init), data[n]);
    if key in Grouped(init) {
      assert FirstWith(data, key) == FirstWith(init, key);
      assert data[FirstWith(init, key)] == init[FirstWith(init, key)];
    }
  }

  /** The first loop of `find_overlapping_vnets` (and of `get_excluded_vnets` without
      its test): every record entered in turn. */
  method GroupVnets(data: seq<Subnet>) returns (seen: map<Key, VnetInfo>)
    ensures seen == Grouped(data)
  {
    seen := map[];
    for i := 0 to |data|
      invariant seen == Grouped(data[..i])
    {
      assert data[..i + 1][..i] == data[..i];
      var key := VnetSubscriptionId(data[i]);
      if key in seen {
        seen := seen[key := seen[key].(subnetCount := seen[key].subnetCount + 1)];
      } else {
        seen := seen[key := NewInfo(data[i])];
      }
    }
    assert data[..|data|] == data;
  }

  // ----- blocks and their claimants -----

  /** How many times block `c` is listed in `cidrs`. */
  function Occurrences(cidrs: seq<Ipv4>, c: Ipv4): (n: nat)
    ensures n > 0 <==> c in cidrs
    decreases |cidrs|
  {
    if |cidrs| == 0 then 0
    else
      var n := |cidrs| - 1;
      assert cidrs == cidrs[..n] + [cidrs[n]];
      Occurrences(cidrs[..n], c) + (if cidrs[n] == c then 1 else 0)
  }

  /** `n` copies of `info`. */
  function Repeat(info: VnetInfo, n: nat): (r: seq<VnetInfo>)
    ensures |r| == n && forall i :: 0 <= i < n ==> r[i] == info
    decreases n
  {
    if n == 0 then [] else Repeat(info, n - 1) + [info]
  }

  /** The claims of the network under `k` on block `c`: one for every time it lists
      `c`, none when no network has that key. */
  function ClaimsBy(seen: map<Key, VnetInfo>, k: Key, c: Ipv4): seq<VnetInfo> {
    if k in seen then Repeat(seen[k], Occurrences(seen[k].vnetCidr, c)) else []
  }

  /** The claimants of block `c` when the networks of `seen` are visited in `order`:
      each network once for every time it lists `c`. */
  function Claimants(seen: map<Key, VnetInfo>, order: seq<Key>, c: Ipv4): seq<VnetInfo>
    decreases |order|
  {
    if |order| == 0 then []
    else
      var n := |order| - 1;
      Claimants(seen, order[..n], c) + ClaimsBy(seen, order[n], c)
  }

  /** The claimants recorded in `claims` for `c`; none when `c` has no entry. */
  function ClaimsOf(claims: map<Ipv4, seq<VnetInfo>>, c: Ipv4): seq<VnetInfo> {
    if c in claims then claims[c] else []
  }

  /** Every key of `order` has a network in `seen`. */
  predicate Covers(seen: map<Key, VnetInfo>, order: seq<Key>) {
    forall i :: 0 <= i < |order| ==> order[i] in seen
  }

  lemma OccurrencesSnoc(cidrs: seq<Ipv4>, j: nat)
    requires j < |cidrs|
    ensures forall c :: Occurrences(cidrs[..j + 1], c) == Occurrences(cidrs[..j], c) + (if cidrs[j] == c then 1 else 0)
  {
    assert cidrs[..j + 1][..j] == cidrs[..j];
  }

  lemma ClaimantsSnoc(seen: map<Key, VnetInfo>, order: seq<Key>, i: nat)
    requires i < |order| && order[i] in seen
    ensures forall c ::
              Claimants(seen, order[..i + 1], c)
              == Claimants(seen, order[..i], c) + Repeat(seen[order[i]], Occurrences(seen[order[i]].vnetCidr, c))
  {
    assert order[..i + 1][..i] == order[..i];
  }

  /** The claimants of `c` after the networks of `prefix` and the blocks `cidrs` of
      one more network `info`. */
  function Claimed(seen: map<Key, VnetInfo>, prefix: seq<Key>, info: VnetInfo, cidrs: seq<Ipv4>, c: Ipv4): seq<VnetInfo> {
    Claimants(seen, prefix, c) + Repeat(info, Occurrences(cidrs, c))
  }

  /** Pushing `info` onto the list of its next block. */
  lemma ClaimStep(claims: map<Ipv4, seq<VnetInfo>>, updated: map<Ipv4, seq<VnetInfo>>, seen: map<Key, VnetInfo>,
    prefix: seq<Key>, info: VnetInfo, cidrs: seq<Ipv4>, j: nat)
    requires j < |cidrs| && updated == claims[cidrs[j] := ClaimsOf(claims, cidrs[j]) + [info]]
    requires forall c :: ClaimsOf(claims, c) == Claimed(seen, prefix, info, cidrs[..j], c)
    ensures forall c :: ClaimsOf(updated, c) == Claimed(seen, prefix, info, cidrs[..j + 1], c)
  {
    OccurrencesSnoc(cidrs, j);
    forall c
      ensures ClaimsOf(updated, c) == Claimed(seen, prefix, info, cidrs[..j + 1], c)
    {
      ClaimStepAt(ClaimsOf(claims, c), ClaimsOf(updated, c), Claimants(seen, prefix, c), info,
        Occurrences(cidrs[..j], c), Occurrences(cidrs[..j + 1], c), c == cidrs[j]);
    }
  }

  lemma ClaimStepAt(before: seq<VnetInfo>, after: seq<VnetInfo>, base: seq<VnetInfo>, info: VnetInfo,
    n: nat, m: nat, hit: bool)
    requires before == base + Repeat(info, n)
    requires m == if hit then n + 1 else n
    requires after == if hit then before + [info] else before
    ensures after == base + Repeat(info, m)
  {
    if hit {
      assert Repeat(info, n + 1) == Repeat(info, n) + [info];
    }
  }

  /** The second loop of `find_overlapping_vnets`: each block of each network, the
      networks taken in `order`, pushed onto that block's list of claimants. */
  method ClaimBlocks(seen: map<Key, VnetInfo>, order: seq<Key>) returns (claims: map<Ipv4, seq<VnetInfo>>)
    requires Covers(seen, order)
    ensures forall c :: ClaimsOf(claims, c) == Claimants(seen, order, c)
    ensures forall c :: c in claims ==> |claims[c]| > 0
  {
    claims := map[];
    for i := 0 to |order|
      invariant forall c :: ClaimsOf(claims, c) == Claimants(seen, order[..i], c)
      invariant forall c :: c in claims ==> |claims[c]| > 0
    {
      var info := seen[order[i]];
      for j := 0 to |info.vnetCidr|
        invariant forall c :: ClaimsOf(claims, c) == Claimed(seen, order[..i], info, info.vnetCidr[..j], c)
        invariant forall c :: c in claims ==> |claims[c]| > 0
      {
        var cidr := info.vnetCidr[j];
        var updated := claims[cidr := ClaimsOf(claims, cidr) + [info]];
        ClaimStep(claims, updated, seen, order[..i], info, info.vnetCidr, j);
        claims := updated;
      }
      assert info.vnetCidr[..|info.vnetCidr|] == info.vnetCidr;
      ClaimantsSnoc(seen, order, i);
    }
    assert order[..|order|] == order;
  }

  /** The third step of `find_overlapping_vnets`: the blocks with more than one
      claimant, taken from the map in an order it does not fix. */
  method CollectConflicts(claims: map<Ipv4, seq<VnetInfo>>) returns (conflicts: seq<OverlapConflict>)
    ensures forall i :: 0 <= i < |conflicts| ==> IsConflictOf(claims, conflicts[i])
    ensures forall c :: c in claims && |claims[c]| > 1 ==> exists i :: 0 <= i < |conflicts| && conflicts[i].cidr == c
    ensures DistinctKeys(conflicts, ConflictCidr)
  {
    var remaining := claims.Keys;
    conflicts := [];
    while remaining != {}
      invariant remaining <= claims.Keys
      invariant Collected(claims, remaining, conflicts)
      decreases |remaining|
    {
      var c :| c in remaining;
      var next := if |claims[c]| > 1 then conflicts + [OverlapConflict(c, claims[c])] else conflicts;
      CollectStep(claims, remaining, conflicts, c, next);
      conflicts := next;
      remaining := remaining - {c};
    }
  }

  /** `c` is a block claimed more than once, with its claimants. */
  predicate IsConflictOf(claims: map<Ipv4, seq<VnetInfo>>, c: OverlapConflict) {
    c.cidr in claims && c.vnets == claims[c.cidr] && |c.vnets| > 1
  }

  /** What the loop of `CollectConflicts` keeps: the conflicts found so far are blocks
      no longer remaining, each once, and every block claimed more than once that is no
      longer remaining is among them. */
  ghost predicate Collected(claims: map<Ipv4, seq<VnetInfo>>, remaining: set<Ipv4>, conflicts: seq<OverlapConflict>) {
    (forall i :: 0 <= i < |conflicts| ==> IsConflictOf(claims, conflicts[i]) && conflicts[i].cidr !in remaining)
    && (forall c :: (c in claims && c !in remaining && |claims[c]| > 1) ==>
          exists i :: 0 <= i < |conflicts| && conflicts[i].cidr == c)
    && DistinctKeys(conflicts, ConflictCidr)
  }

  lemma CollectStep(claims: map<Ipv4, seq<VnetInfo>>, remaining: set<Ipv4>, conflicts: seq<OverlapConflict>,
    c: Ipv4, next: seq<OverlapConflict>)
    requires remaining <= claims.Keys && c in remaining && Collected(claims, remaining, conflicts)
    requires next == if |claims[c]| > 1 then conflicts + [OverlapConflict(c, claims[c])] else conflicts
    ensures Collected(claims, remaining - {c}, next)
  {
    var rest := remaining - {c};
    if |claims[c]| > 1 {
      var n := |conflicts|;
      assert next[n].cidr == c;
      assert forall i :: 0 <= i < n ==> next[i] == conflicts[i];
      forall i | 0 <= i < |next|
        ensures IsConflictOf(claims, next[i]) && next[i].cidr !in rest
      {
      }
      forall d | d in claims && d !in rest && |claims[d]| > 1
        ensures exists i :: 0 <= i < |next| && next[i].cidr == d
      {
        if d != c {
          var i :| 0 <= i < n && conflicts[i].cidr == d;
          assert next[i].cidr == d;
        }
      }
      forall i, j | 0 <= i < j < |next|
        ensures ConflictCidr(next[i]) != ConflictCidr(next[j])
      {
        if j == n {
          assert conflicts[i].cidr !in remaining;
        }
      }
    }
  }



  function ConflictCidr(c: OverlapConflict): Ipv4 {
    c.cidr
  }

  /** `cs` is what `find_overlapping_vnets` reports for the networks `seen` visited in
      `order`: ascending blocks, none twice, each with its claimants, which are more than
      one; and every block with more than one claimant is there. */
  ghost predicate ConflictList(cs: seq<OverlapConflict>, seen: map<Key, VnetInfo>, order: seq<Key>) {
    (forall i, j :: 0 <= i < j < |cs| ==> Less(cs[i].cidr, cs[j].cidr))
    && (forall i :: 0 <= i < |cs| ==> cs[i].vnets == Claimants(seen, order, cs[i].cidr) && |cs[i].vnets| > 1)
    && (forall c :: |Claimants(seen, order, c)| > 1 ==> exists i :: 0 <= i < |cs| && cs[i].cidr == c)
  }

  /** `find_overlapping_vnets`: the networks of the records, each block they list with
      its claimants, and the blocks with more than one claimant, sorted by block. The
      networks are visited in `vnetOrder`, the iteration order of the map of networks. */
  method FindOverlappingVnets(data: seq<Subnet>, vnetOrder: seq<Key>) returns (conflicts: seq<OverlapConflict>)
    requires Enumerates(vnetOrder, Grouped(data).Keys)
    ensures ConflictList(conflicts, Grouped(data), vnetOrder)
  {
    var seen := GroupVnets(data);
    assert Covers(seen, vnetOrder) by {
      forall i | 0 <= i < |vnetOrder| ensures vnetOrder[i] in seen {
        assert vnetOrder[i] in vnetOrder;
      }
    }
    var claims := ClaimBlocks(seen, vnetOrder);
    var found := CollectConflicts(claims);
    conflicts := SortByKey(found, ConflictCidr, LessEq);
    SortedConflicts(found, seen, vnetOrder, claims);
  }

  lemma SortedConflicts(found: seq<OverlapConflict>, seen: map<Key, VnetInfo>, order: seq<Key>,
    claims: map<Ipv4, seq<VnetInfo>>)
    requires forall c :: ClaimsOf(claims, c) == Claimants(seen, order, c)
    requires forall i :: 0 <= i < |found| ==>
      found[i].cidr in claims && found[i].vnets == claims[found[i].cidr] && |found[i].vnets| > 1
    requires forall c :: c in claims && |claims[c]| > 1 ==> exists i :: 0 <= i < |found| && found[i].cidr == c
    requires DistinctKeys(found, ConflictCidr)
    ensures ConflictList(SortByKey(found, ConflictCidr, LessEq), seen, order)
  {
    var cs := SortByKey(found, ConflictCidr, LessEq);
    CidrTotalOrder();
    SortByKeySorted(found, ConflictCidr, LessEq);
    DistinctKeysPermutation(found, cs, ConflictCidr);
    forall i | 0 <= i < |cs|
      ensures cs[i].vnets == Claimants(seen, order, cs[i].cidr) && |cs[i].vnets| > 1
    {
      assert cs[i] in multiset(found);
      var k :| 0 <= k < |found| && found[k] == cs[i];
      assert ClaimsOf(claims, found[k].cidr) == claims[found[k].cidr];
    }
    forall c | |Claimants(seen, order, c)| > 1
      ensures exists i :: 0 <= i < |cs| && cs[i].cidr == c
    {
      assert ClaimsOf(claims, c) == Claimants(seen, order, c);
      var k :| 0 <= k < |found| && found[k].cidr == c;
      assert found[k] in multiset(cs);
      var i :| 0 <= i < |cs| && cs[i] == found[k];
    }
  }

  /** A network claims a block exactly when it lists it. */
  lemma ClaimantsMembers(seen: map<Key, VnetInfo>, order: seq<Key>, c: Ipv4, info: VnetInfo)
    ensures info in Claimants(seen, order, c) <==>
              exists i :: 0 <= i < |order| && order[i] in seen && seen[order[i]] == info && c in info.vnetCidr
  {
    ClaimantsFlatMap(seen, order, c);
    FlatMapMembers(order, ClaimsOn(seen, c), info);
    forall i | 0 <= i < |order|
      ensures info in ClaimsBy(seen, order[i], c) <==> order[i] in seen && seen[order[i]] == info && c in info.vnetCidr
    {
      ClaimsByMembers(seen, order[i], c, info);
    }
  }

  /** `ClaimsBy` on block `c` as a function of the key. */
  function ClaimsOn(seen: map<Key, VnetInfo>, c: Ipv4): (f: Key -> seq<VnetInfo>)
    ensures forall k :: f(k) == ClaimsBy(seen, k, c)
  {
    k => ClaimsBy(seen, k, c)
  }

  /** The claimants are the claims of each key in turn. */
  lemma {:induction false} ClaimantsFlatMap(seen: map<Key, VnetInfo>, order: seq<Key>, c: Ipv4)
    ensures Claimants(seen, order, c) == FlatMap(order, ClaimsOn(seen, c))
    decreases |order|
  {
    if |order| > 0 {
      ClaimantsFlatMap(seen, order[..|order| - 1], c);
    }
  }

  /** A network claims a block under its key exactly when it lists the block. */
  lemma ClaimsByMembers(seen: map<Key, VnetInfo>, k: Key, c: Ipv4, info: VnetInfo)
    ensures info in ClaimsBy(seen, k, c) <==> k in seen && seen[k] == info && c in info.vnetCidr
  {
    if k in seen && seen[k] == info && c in info.vnetCidr {
      assert ClaimsBy(seen, k, c)[0] == info;
    }
  }

  lemma {:induction false} ClaimantsConcat(seen: map<Key, VnetInfo>, a: seq<Key>, b: seq<Key>, c: Ipv4)
    ensures Claimants(seen, a + b, c) == Claimants(seen, a, c) + Claimants(seen, b, c)
    decreases |b|
  {
    if |b| > 0 {
      var n := |b| - 1;
      ClaimantsConcat(seen, a, b[..n], c);
      assert (a + b)[..|a + b| - 1] == a + b[..n];
    } else {
      assert a + b == a;
    }
  }

  /** The order the networks are visited in does not change how often each network
      claims a block, only where it stands in the list. */
  lemma {:induction false} ClaimantsPermutation(seen: map<Key, VnetInfo>, o1: seq<Key>, o2: seq<Key>, c: Ipv4)
    requires NoRepeats(o1) && NoRepeats(o2)
    requires forall k :: k in o1 <==> k in o2
    ensures multiset(Claimants(seen, o1, c)) == multiset(Claimants(seen, o2, c))
    decreases |o1|
  {
    if |o1| == 0 {
      if |o2| > 0 {
        HeadIn(o2);
        assert false;
      }
    } else {
      var n := |o1| - 1;
      var k := o1[n];
      assert k in o2;
      var p :| 0 <= p < |o2| && o2[p] == k;
      RemoveOne(o1, o2, p);
      ClaimantsPermutation(seen, o1[..n], o2[..p] + o2[p + 1..], c);
      MoveOne(seen, o1, o2, p, c);
    }
  }

  /** Moving the last key of `o1` to position `p` keeps the claims the same up to order,
      once they are the same without it. */
  lemma MoveOne(seen: map<Key, VnetInfo>, o1: seq<Key>, o2: seq<Key>, p: nat, c: Ipv4)
    requires |o1| > 0 && p < |o2| && o2[p] == o1[|o1| - 1]
    requires multiset(Claimants(seen, o1[..|o1| - 1], c)) == multiset(Claimants(seen, o2[..p] + o2[p + 1..], c))
    ensures multiset(Claimants(seen, o1, c)) == multiset(Claimants(seen, o2, c))
  {
    var front, back := o2[..p], o2[p + 1..];
    ClaimantsSplit(seen, o2, p, c);
    ClaimantsConcat(seen, front, back, c);
    var z := Claimants(seen, o1[..|o1| - 1], c);
    assert Claimants(seen, o1, c) == z + ClaimsBy(seen, o2[p], c);
    MoveMultiset(z, Claimants(seen, front, c), ClaimsBy(seen, o2[p], c), Claimants(seen, back, c));
  }

  /** The claims in an order are those before position `p`, those of the key at `p`, and
      those after it. */
  lemma ClaimantsSplit(seen: map<Key, VnetInfo>, o: seq<Key>, p: nat, c: Ipv4)
    requires p < |o|
    ensures Claimants(seen, o, c)
      == Claimants(seen, o[..p], c) + ClaimsBy(seen, o[p], c) + Claimants(seen, o[p + 1..], c)
  {
    var front, back := o[..p], o[p + 1..];
    assert o == front + [o[p]] + back;
    assert [o[p]][..0] == [];
    ClaimantsConcat(seen, front + [o[p]], back, c);
    ClaimantsConcat(seen, front, [o[p]], c);
  }

  /** Appending `m` to a rearrangement of `a + b` rearranges `a + m + b`. */
  lemma MoveMultiset<T>(z: seq<T>, a: seq<T>, m: seq<T>, b: seq<T>)
    requires multiset(z) == multiset(a + b)
    ensures multiset(z + m) == multiset(a + m + b)
  {
  }

  /** Taking the last key out of `o1` and the same key out of `o2` leaves two orders of
      the same keys. */
  lemma RemoveOne(o1: seq<Key>, o2: seq<Key>, p: nat)
    requires NoRepeats(o1) && NoRepeats(o2) && |o1| > 0
    requires forall k :: k in o1 <==> k in o2
    requires p < |o2| && o2[p] == o1[|o1| - 1]
    ensures var rest := o2[..p] + o2[p + 1..];
      NoRepeats(o1[..|o1| - 1]) && NoRepeats(rest)
      && forall k :: k in o1[..|o1| - 1] <==> k in rest
  {
    var n := |o1| - 1;
    var rest := o2[..p] + o2[p + 1..];
    assert forall i :: 0 <= i < |rest| ==> rest[i] == if i < p then o2[i] else o2[i + 1];
    forall k
      ensures k in o1[..n] <==> k in rest
    {
      if k in o1[..n] {
        var i :| 0 <= i < n && o1[..n][i] == k;
        assert o1[i] != o1[n] && o1[i] in o1;
        var q :| 0 <= q < |o2| && o2[q] == k;
        if q < p { assert rest[q] == k; } else { assert rest[q - 1] == k; }
      }
      if k in rest {
        var i :| 0 <= i < |rest| && rest[i] == k;
        assert k in o2 && k != o2[p];
        var q :| 0 <= q < |o1| && o1[q] == k;
        assert o1[..n][q] == k;
      }
    }
  }

  /** The blocks of some conflicts, in order. */
  function CidrsOf(cs: seq<OverlapConflict>): (r: seq<Ipv4>)
    ensures |r| == |cs| && forall i :: 0 <= i < |cs| ==> r[i] == cs[i].cidr
  {
    seq(|cs|, i requires 0 <= i < |cs| => cs[i].cidr)
  }

  predicate StrictlySorted(a: seq<Ipv4>) {
    forall i, j :: 0 <= i < j < |a| ==> Less(a[i], a[j])
  }

  /** Two ascending lists of blocks, none twice, with the same blocks are equal. */
  lemma {:induction false} StrictlySortedUnique(a: seq<Ipv4>, b: seq<Ipv4>)
    requires StrictlySorted(a) && StrictlySorted(b)
    requires forall x :: x in a <==> x in b
    ensures a == b
    decreases |a|
  {
    if |a| == 0 {
      if |b| > 0 {
        HeadIn(b);
        assert false;
      }
    } else {
      assert b[0] == a[0] by {
        assert a[0] in b && b[0] in a;
        var p :| 0 <= p < |a| && a[p] == b[0];
        var q :| 0 <= q < |b| && b[q] == a[0];
        LessTotal(a[0], b[0]);
      }
      forall x
        ensures x in a[1..] <==> x in b[1..]
      {
        if x in a[1..] {
          var i :| 1 <= i < |a| && a[i] == x;
          assert Less(a[0], a[i]);
          LessTotal(a[0], x);
          assert x in b;
          var j :| 0 <= j < |b| && b[j] == x;
          assert j != 0;
          assert b[1..][j - 1] == x;
        }
        if x in b[1..] {
          var i :| 1 <= i < |b| && b[i] == x;
          assert Less(b[0], b[i]);
          LessTotal(b[0], x);
          assert x in a;
          var j :| 0 <= j < |a| && a[j] == x;
          assert j != 0;
          assert a[1..][j - 1] == x;
        }
      }
      StrictlySortedUnique(a[1..], b[1..]);
      assert a == [a[0]] + a[1..] && b == [b[0]] + b[1..];
    }
  }

  lemma HeadIn<T>(s: seq<T>)
    requires |s| > 0
    ensures s[0] in s
  {
  }

  /** The blocks of a report are those with more than one claimant. */
  lemma ConflictCidrs(cs: seq<OverlapConflict>, seen: map<Key, VnetInfo>, o: seq<Key>, x: Ipv4)
    requires ConflictList(cs, seen, o)
    ensures x in CidrsOf(cs) <==> |Claimants(seen, o, x)| > 1
  {
    var a := CidrsOf(cs);
    if x in a {
      var i :| 0 <= i < |a| && a[i] == x;
    }
    if |Claimants(seen, o, x)| > 1 {
      var j :| 0 <= j < |cs| && cs[j].cidr == x;
      assert a[j] == x;
    }
  }

  /** However the networks are visited, each block has as many claimants. */
  lemma SameClaimCount(seen: map<Key, VnetInfo>, o1: seq<Key>, o2: seq<Key>, x: Ipv4)
    requires Enumerates(o1, seen.Keys) && Enumerates(o2, seen.Keys)
    ensures multiset(Claimants(seen, o1, x)) == multiset(Claimants(seen, o2, x))
    ensures |Claimants(seen, o1, x)| == |Claimants(seen, o2, x)|
  {
    ClaimantsPermutation(seen, o1, o2, x);
    assert |Claimants(seen, o1, x)| == |multiset(Claimants(seen, o1, x))|;
    assert |Claimants(seen, o2, x)| == |multiset(Claimants(seen, o2, x))|;
  }

  /** The report does not depend on the order the networks are visited in: the same
      blocks in the same order, each with the same claimants, counted with repeats. */
  lemma ConflictsAgree(seen: map<Key, VnetInfo>, o1: seq<Key>, o2: seq<Key>,
    cs1: seq<OverlapConflict>, cs2: seq<OverlapConflict>)
    requires Enumerates(o1, seen.Keys) && Enumerates(o2, seen.Keys)
    requires ConflictList(cs1, seen, o1) && ConflictList(cs2, seen, o2)
    ensures |cs1| == |cs2|
    ensures forall i :: 0 <= i < |cs1| ==>
              cs1[i].cidr == cs2[i].cidr && multiset(cs1[i].vnets) == multiset(cs2[i].vnets)
  {
    var a, b := CidrsOf(cs1), CidrsOf(cs2);
    forall x
      ensures x in a <==> x in b
    {
      SameClaimCount(seen, o1, o2, x);
      ConflictCidrs(cs1, seen, o1, x);
      ConflictCidrs(cs2, seen, o2, x);
    }
    StrictlySortedUnique(a, b);
    forall i | 0 <= i < |cs1|
      ensures cs1[i].cidr == cs2[i].cidr && multiset(cs1[i].vnets) == multiset(cs2[i].vnets)
    {
      assert a[i] == b[i];
      SameClaimCount(seen, o1, o2, cs1[i].cidr);
    }
  }

  // ----- exclusion by block -----

  /** `filter_map(Ipv4::new(..).ok())`: the blocks that parse, in order; the others
      are dropped. */
  function ParseExcluded(texts: seq<string>): (blocks: seq<Ipv4>) {
    FlatMap(texts, ParsedBlock)
  }

  /** `Ipv4::new(..).ok()` as a list of at most one block. */
  function ParsedBlock(text: string): (r: seq<Ipv4>)
    ensures |r| <= 1
    ensures forall ip :: ip in r <==> New(text) == Ok(ip)
  {
    var p := New(text);
    if p.Ok? then [p.value] else []
  }

  /** A block is excluded exactly when some listed text parses to it. */
  lemma ParseExcludedSpec(texts: seq<string>)
    ensures forall ip :: ip in ParseExcluded(texts) <==> exists k :: 0 <= k < |texts| && New(texts[k]) == Ok(ip)
  {
    forall ip
      ensures ip in ParseExcluded(texts) <==> exists k :: 0 <= k < |texts| && New(texts[k]) == Ok(ip)
    {
      FlatMapMembers(texts, ParsedBlock, ip);
    }
  }

  /** The defaults parse to 10.0.0.0/16 and 10.1.0.0/16. */
  lemma DefaultExcludes()
    ensures ParseExcluded(DefaultVnetCidrsToExclude()) == [Ipv4(0x0A00_0000, 16), Ipv4(0x0A01_0000, 16)]
  {
    var a := Ipv4(0x0A00_0000, 16);
    var b := Ipv4(0x0A01_0000, 16);
    DefaultTexts();
    NewOfDisplay(a);
    NewOfDisplay(b);
    ParseTwo(Display(a), Display(b), a, b);
  }

  lemma ParseTwo(x: string, y: string, a: Ipv4, b: Ipv4)
    requires New(x) == Ok(a) && New(y) == Ok(b)
    ensures ParseExcluded([x, y]) == [a, b]
  {
    FlatMapPair(x, y, ParsedBlock);
    assert ParsedBlock(x) == [a] && ParsedBlock(y) == [b];
  }

  lemma DefaultTexts()
    ensures DefaultVnetCidrsToExclude() == [Display(Ipv4(0x0A00_0000, 16)), Display(Ipv4(0x0A01_0000, 16))]
  {
    Digits();
    DisplayText(0x0A00_0000, "0");
    DisplayText(0x0A01_0000, "1");
    SecondOctetText("0", "10.0.0.0/16");
    SecondOctetText("1", "10.1.0.0/16");
  }

  /** The two default texts, put together from their second octet. */
  lemma SecondOctetText(b: string, text: string)
    requires (b, text) == ("0", "10.0.0.0/16") || (b, text) == ("1", "10.1.0.0/16")
    ensures "10." + b + ".0.0/16" == text
  {
    var q := "10." + b + ".0.0/16";
    assert |q| == |text| == 11;
    forall k | 0 <= k < 11
      ensures q[k] == text[k]
    {
    }
  }

  /** The text of 10.b.0.0/16 for a one-digit `b`. */
  lemma DisplayText(a: Addr, b: string)
    requires a == 0x0A00_0000 || a == 0x0A01_0000
    requires b == (if a == 0x0A00_0000 then "0" else "1")
    requires NatToString(0) == "0" && NatToString(1) == "1" && NatToString(10) == "10"
    requires NatToString(16) == "16"
    ensures Display(Ipv4(a, 16)) == "10." + b + ".0.0/16"
  {
    var s := AddrToString(a);
    AddrText(a, b);
    JoinTwo(s, NatToString(16), "/");
  }

  lemma Digits()
    ensures NatToString(0) == "0" && NatToString(1) == "1" && NatToString(10) == "10"
    ensures NatToString(16) == "16"
  {
    assert NatToString(1) == "1" && NatToString(6) == "6";
  }

  /** The text of 10.b.0.0 for a one-digit `b`. */
  lemma AddrText(a: Addr, b: string)
    requires a == 0x0A00_0000 || a == 0x0A01_0000
    requires b == (if a == 0x0A00_0000 then "0" else "1")
    requires NatToString(0) == "0" && NatToString(1) == "1" && NatToString(10) == "10"
    ensures AddrToString(a) == "10." + b + ".0.0"
  {
    assert Octets(a) == [10, if a == 0x0A00_0000 then 0 else 1, 0, 0];
    JoinFour("10", b, "0", "0", ".");
  }

  lemma JoinFour(a: string, b: string, c: string, d: string, sep: string)
    ensures Join([a, b, c, d], sep) == a + sep + b + sep + c + sep + d
  {
    JoinCons(c, [d], sep);
    JoinCons(b, [c, d], sep);
    JoinCons(a, [b, c, d], sep);
    assert [a, b, c, d] == [a] + [b, c, d];
    assert [b, c, d] == [b] + [c, d];
    assert [c, d] == [c] + [d];
    assert a + sep + (b + sep + (c + sep + d)) == a + sep + b + sep + c + sep + d;
  }

  lemma JoinTwo(a: string, b: string, sep: string)
    ensures Join([a, b], sep) == a + sep + b
  {
    assert [a, b][1..] == [b];
  }

  /** The test of `get_excluded_vnets` and `filter_excluded_vnet_cidrs`: one of the
      record's network blocks equals an excluded block. */
  predicate ShouldExclude(s: Subnet, excluded: seq<Ipv4>) {
    exists j :: 0 <= j < |s.vnetCidr| && s.vnetCidr[j] in excluded
  }

  function Excluded(excluded: seq<Ipv4>): (p: Subnet -> bool)
    ensures forall s :: p(s) == ShouldExclude(s, excluded)
  {
    (s: Subnet) => ShouldExclude(s, excluded)
  }

  function Kept(excluded: seq<Ipv4>): (p: Subnet -> bool)
    ensures forall s :: p(s) == !ShouldExclude(s, excluded)
  {
    (s: Subnet) => !ShouldExclude(s, excluded)
  }

  /** The excluded blocks: those of the list given, or of the defaults. */
  function ExcludedBlocks(excludedCidrs: Option<seq<string>>): seq<Ipv4> {
    ParseExcluded(excludedCidrs.GetOr(DefaultVnetCidrsToExclude()))
  }

  /** `filter_excluded_vnet_cidrs`: the records none of whose network blocks is
      excluded, in their order. It never fails. */
  method FilterExcludedVnetCidrs(data: seq<Subnet>, excludedCidrs: Option<seq<string>>)
    returns (r: Result<seq<Subnet>>)
    ensures r.Ok? && r.value == Retain(data, Kept(ExcludedBlocks(excludedCidrs)))
    ensures forall s :: s in r.value <==> s in data && !ShouldExclude(s, ExcludedBlocks(excludedCidrs))
    ensures IsSubsequence(r.value, data)
  {
    var excluded := ParseExcluded(excludedCidrs.GetOr(DefaultVnetCidrsToExclude()));
    var records := data;
    records := Retain(records, Kept(excluded));
    RetainMembers(data, Kept(excluded));
    RetainSubsequence(data, Kept(excluded));
    return Ok(records);
  }

  /** What `retain` keeps is a subsequence: it never adds and keeps the order. */
  lemma {:induction false} RetainSubsequence<T(!new)>(xs: seq<T>, keep: T -> bool)
    ensures IsSubsequence(Retain(xs, keep), xs)
    decreases |xs|
  {
    if |xs| > 0 {
      var n := |xs| - 1;
      RetainSubsequence(xs[..n], keep);
      SubsequenceSnoc(Retain(xs[..n], keep), xs[..n], xs[n]);
      assert xs[..n] + [xs[n]] == xs;
    }
  }

  /** `get_excluded_vnets`: the networks of the records that the exclusion drops, each
      counting only those records. */
  method GetExcludedVnets(data: seq<Subnet>, excludedCidrs: Option<seq<string>>)
    returns (seen: map<Key, VnetInfo>)
    ensures seen == Grouped(Retain(data, Excluded(ExcludedBlocks(excludedCidrs))))
  {
    var excluded := ParseExcluded(excludedCidrs.GetOr(DefaultVnetCidrsToExclude()));
    seen := map[];
    for i := 0 to |data|
      invariant seen == Grouped(Retain(data[..i], Excluded(excluded)))
    {
      ExcludedSnoc(data, i, excluded);
      if ShouldExclude(data[i], excluded) {
        seen := Enter(seen, data[i]);
      }
    }
    assert data[..|data|] == data;
  }

  /** The networks of the dropped records after one more record. */
  lemma ExcludedSnoc(data: seq<Subnet>, i: nat, excluded: seq<Ipv4>)
    requires i < |data|
    ensures var before := Grouped(Retain(data[..i], Excluded(excluded)));
      Grouped(Retain(data[..i + 1], Excluded(excluded)))
        == if ShouldExclude(data[i], excluded) then Enter(before, data[i]) else before
  {
    assert data[..i + 1][..i] == data[..i];
    var kept := Retain(data[..i], Excluded(excluded));
    if ShouldExclude(data[i], excluded) {
      assert Retain(data[..i + 1], Excluded(excluded)) == kept + [data[i]];
      assert (kept + [data[i]])[..|kept|] == kept;
    }
  }

  /** Between them, the exclusion filter and the excluded networks account for every
      record: a record the filter drops belongs to an excluded network, and one it keeps
      to none of the records counted there. */
  lemma ExclusionAccounts(data: seq<Subnet>, excluded: seq<Ipv4>, s: Subnet)
    requires s in data
    ensures s !in Retain(data, Kept(excluded)) ==> VnetSubscriptionId(s) in Grouped(Retain(data, Excluded(excluded)))
    ensures s in Retain(data, Kept(excluded)) ==> s !in Retain(data, Excluded(excluded))
  {
    var dropped := Retain(data, Excluded(excluded));
    RetainMembers(data, Kept(excluded));
    RetainMembers(data, Excluded(excluded));
    GroupedSpec(dropped);
    if s !in Retain(data, Kept(excluded)) {
      var k :| 0 <= k < |dropped| && dropped[k] == s;
      assert FirstWith(dropped, VnetSubscriptionId(s)) >= 0;
    }
  }

  // ----- keeping one network per conflict -----

  /** What `filter_overlapping_vnets` ranks claimants by. */
  function Rank(v: VnetInfo): (nat, string) {
    (v.subnetCount, v.subscriptionName)
  }

  /** The claimants in the order of its stable `sort_by`: more records first, then by
      subscription name, ties in their previous order. */
  function Ranked(vnets: seq<VnetInfo>): (r: seq<VnetInfo>)
    ensures |r| == |vnets|
  {
    SortByKey(vnets, Rank, MoreThenNameLe)
  }

  /** The keys of some networks, in order. */
  function KeysOf(vs: seq<VnetInfo>): (ks: seq<Key>)
    ensures |ks| == |vs| && forall i :: 0 <= i < |vs| ==> ks[i] == InfoKey(vs[i])
    decreases |vs|
  {
    if |vs| == 0 then [] else KeysOf(vs[..|vs| - 1]) + [InfoKey(vs[|vs| - 1])]
  }

  lemma KeysOfSnoc(vs: seq<VnetInfo>, k: nat)
    requires 1 <= k < |vs|
    ensures KeysOf(vs[1..k + 1]) == KeysOf(vs[1..k]) + [InfoKey(vs[k])]
  {
    assert vs[1..k + 1][..k - 1] == vs[1..k];
  }

  /** The networks a conflict removes: every claimant after the first in rank. */
  function Losers(c: OverlapConflict): seq<Key> {
    var ranked := Ranked(c.vnets);
    if |ranked| == 0 then [] else KeysOf(ranked[1..])
  }

  /** `vnets_to_remove`: the losers of each conflict in turn. */
  function ToRemove(cs: seq<OverlapConflict>): seq<Key>
    decreases |cs|
  {
    if |cs| == 0 then [] else ToRemove(cs[..|cs| - 1]) + Losers(cs[|cs| - 1])
  }

  /** The test of the final `retain`: the record's network is not marked for removal. */
  function NotRemoved(keys: seq<Key>): (p: Subnet -> bool)
    ensures forall s :: p(s) == (VnetSubscriptionId(s) !in keys)
  {
    (s: Subnet) => VnetSubscriptionId(s) !in keys
  }

  /** `filter_overlapping_vnets`: unchanged when nothing conflicts; otherwise, for each
      conflict, every claimant but the first in rank is marked, and the records of the
      marked networks are dropped, the others kept in order. It never fails. */
  method FilterOverlappingVnets(data: seq<Subnet>, vnetOrder: seq<Key>) returns (r: Result<seq<Subnet>>)
    requires Enumerates(vnetOrder, Grouped(data).Keys)
    ensures r.Ok?
    ensures exists cs :: ConflictList(cs, Grouped(data), vnetOrder) && r.value == Retain(data, NotRemoved(ToRemove(cs)))
    ensures (forall c :: |Claimants(Grouped(data), vnetOrder, c)| <= 1) ==> r.value == data
    ensures IsSubsequence(r.value, data)
  {
    var conflicts := FindOverlappingVnets(data, vnetOrder);
    RetainSubsequence(data, NotRemoved(ToRemove(conflicts)));
    if |conflicts| == 0 {
      RetainAll(data, NotRemoved([]));
      return Ok(data);
    }
    var toRemove := MarkForRemoval(conflicts);
    assert |conflicts[0].vnets| > 1;
    return Ok(Retain(data, NotRemoved(toRemove)));
  }

  /** The marking loop of `filter_overlapping_vnets`: for each conflict in turn, its
      claimants sorted by rank, the first kept (indexing it needs a claimant) and the
      others pushed onto the list. */
  method MarkForRemoval(conflicts: seq<OverlapConflict>) returns (toRemove: seq<Key>)
    requires forall i :: 0 <= i < |conflicts| ==> |conflicts[i].vnets| > 0
    ensures toRemove == ToRemove(conflicts)
  {
    toRemove := [];
    for i := 0 to |conflicts|
      invariant toRemove == ToRemove(conflicts[..i])
    {
      var sorted := SortByKey(conflicts[i].vnets, Rank, MoreThenNameLe);
      var keeper := sorted[0];
      toRemove := MarkLosers(toRemove, sorted);
      ToRemoveSnoc(conflicts, i);
    }
    assert conflicts[..|conflicts|] == conflicts;
  }

  /** The inner loop: every network after the first in rank is marked, in rank order. */
  method MarkLosers(marked: seq<Key>, sorted: seq<VnetInfo>) returns (toRemove: seq<Key>)
    requires |sorted| > 0
    ensures toRemove == marked + KeysOf(sorted[1..])
  {
    toRemove := marked;
    for k := 1 to |sorted|
      invariant toRemove == marked + KeysOf(sorted[1..k])
    {
      KeysOfSnoc(sorted, k);
      toRemove := toRemove + [InfoKey(sorted[k])];
    }
    assert sorted[1..|sorted|] == sorted[1..];
  }

  /** Marking one more conflict appends its losers. */
  lemma ToRemoveSnoc(cs: seq<OverlapConflict>, i: nat)
    requires i < |cs|
    ensures ToRemove(cs[..i + 1]) == ToRemove(cs[..i]) + Losers(cs[i])
  {
    assert cs[..i + 1][..i] == cs[..i];
  }


  /** The network kept for a conflict has the most records of its claimants, and the
      least subscription name among those with as many. */
  lemma KeeperWins(vnets: seq<VnetInfo>)
    requires |vnets| > 0
    ensures Ranked(vnets)[0] in vnets
    ensures forall v :: v in vnets ==> Ranked(vnets)[0].subnetCount >= v.subnetCount
    ensures forall v :: v in vnets && v.subnetCount == Ranked(vnets)[0].subnetCount ==>
                StrLe(Ranked(vnets)[0].subscriptionName, v.subscriptionName)
  {
    var ranked := Ranked(vnets);
    MoreThenNameTotalOrder();
    SortByKeySorted(vnets, Rank, MoreThenNameLe);
    assert ranked[0] in multiset(vnets);
    forall v | v in vnets
      ensures ranked[0].subnetCount >= v.subnetCount
      ensures v.subnetCount == ranked[0].subnetCount ==> StrLe(ranked[0].subscriptionName, v.subscriptionName)
    {
      assert v in multiset(ranked);
      var j :| 0 <= j < |ranked| && ranked[j] == v;
      if j == 0 {
        StrLeTotalAt(v.subscriptionName, v.subscriptionName);
      } else {
        assert MoreThenNameLe(Rank(ranked[0]), Rank(ranked[j]));
      }
    }
  }

  /** `key` is a claimant of conflict `c` other than the first in rank. */
  ghost predicate LosesIn(c: OverlapConflict, key: Key) {
    exists j :: 1 <= j < |c.vnets| && InfoKey(Ranked(c.vnets)[j]) == key
  }

  lemma LosersSpec(c: OverlapConflict, key: Key)
    ensures key in Losers(c) <==> LosesIn(c, key)
  {
    var losers := Losers(c);
    var ranked := Ranked(c.vnets);
    if key in losers {
      var k :| 0 <= k < |losers| && losers[k] == key;
      assert InfoKey(ranked[k + 1]) == key;
    }
    if LosesIn(c, key) {
      var j :| 1 <= j < |c.vnets| && InfoKey(ranked[j]) == key;
      assert losers[j - 1] == key;
    }
  }

  /** A network is marked for removal exactly when it is a claimant of some conflict
      other than the first in rank, even if it is kept for another conflict. */
  lemma ToRemoveSpec(cs: seq<OverlapConflict>, key: Key)
    ensures key in ToRemove(cs) <==> exists i :: 0 <= i < |cs| && LosesIn(cs[i], key)
  {
    ToRemoveLosers(cs, key);
    forall i | 0 <= i < |cs|
      ensures key in Losers(cs[i]) <==> LosesIn(cs[i], key)
    {
      LosersSpec(cs[i], key);
    }
  }

  lemma ToRemoveLosers(cs: seq<OverlapConflict>, key: Key)
    ensures key in ToRemove(cs) <==> exists i :: 0 <= i < |cs| && key in Losers(cs[i])
  {
    ToRemoveFlatMap(cs);
    FlatMapMembers(cs, Losers, key);
  }

  /** The marked keys are the losers of each conflict, one conflict after the other. */
  lemma {:induction false} ToRemoveFlatMap(cs: seq<OverlapConflict>)
    ensures ToRemove(cs) == FlatMap(cs, Losers)
    decreases |cs|
  {
    if |cs| > 0 {
      ToRemoveFlatMap(cs[..|cs| - 1]);
    }
  }
}
