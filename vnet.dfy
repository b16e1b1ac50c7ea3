/** Virtual networks and the list that groups subnet records into them.

    A network refers to its records; here the records are the positions of the
    subnets in the record list the network list was built from, so "all records with
    this key, in input order" is a statement about positions. The list owns its
    networks (no network is reachable from two keys), so a network is a value that the
    list updates in place through its map. The current model (`models/vnet.rs`) and the
    legacy one (`struct_vnet.rs`) have the same fields and methods and share these
    declarations; the legacy file adds `import_from_subnets`. */
module Vnets {
  import opened Results
  import opened Ipv4Cidr
  import opened Records

  type Key = (string, string)

  /** A virtual network and the positions of its subnet records. */
  datatype Vnet = Vnet(
    vnetName: string,
    vnetCidr: seq<Ipv4>,
    location: string,
    subscriptionId: string,
    subscriptionName: string,
    subnets: seq<nat>)
  {
    /** The network fields are those of record `s`. */
    predicate HeadedBy(s: Subnet) {
      vnetName == s.vnetName && vnetCidr == s.vnetCidr && location == s.location
      && subscriptionId == s.subscriptionId && subscriptionName == s.subscriptionName
    }

    /** `add_subnet`: appends a record and changes nothing else. */
    function AddSubnet(k: nat): (v: Vnet)
      ensures v.subnets == subnets + [k]
      ensures v.vnetName == vnetName && v.vnetCidr == vnetCidr && v.location == location
      ensures v.subscriptionId == subscriptionId && v.subscriptionName == subscriptionName
    {
      this.(subnets := subnets + [k])
    }
  }

  /** `Vnet::new`: the network of record `s`, at position `k`, holding that record
      only. */
  function NewVnet(s: Subnet, k: nat): (v: Vnet)
    ensures v.HeadedBy(s) && v.subnets == [k]
  {
    Vnet(s.vnetName, s.vnetCidr, s.location, s.subscriptionId, s.subscriptionName, [k])
  }

  /** The networks, keyed by network name and subscription display name. */
  class VnetList {
    var vnets: map<Key, Vnet>

    /** `VnetList::new`: no networks. */
    constructor ()
      ensures vnets == map[]
    {
      vnets := map[];
    }

    /** `add_vnet` (both versions; the legacy one also looks the key up and ignores the
        answer): files a new one-record network for record `k` under its key, replacing
        whatever was filed there and leaving the other keys alone. */
    method AddVnet(data: seq<Subnet>, k: nat)
      requires k < |data|
      modifies this
      ensures vnets == old(vnets)[VnetSubscriptionName(data[k]) := NewVnet(data[k], k)]
    {
      vnets := vnets[VnetSubscriptionName(data[k]) := NewVnet(data[k], k)];
    }

    /** `import_from_subnets` (legacy): adds every record in turn, so each key of the
        records ends up holding a network with only its last record; keys the records
        do not have are left alone. */
    method ImportFromSubnets(data: seq<Subnet>)
      modifies this
      ensures vnets.Keys == old(vnets.Keys) + KeysOf(data)
      ensures forall key | key in old(vnets) && key !in KeysOf(data) :: vnets[key] == old(vnets)[key]
      ensures forall key | key in KeysOf(data) :: LastOnly(vnets[key], data, data, key)
    {
      for i := 0 to |data|
        invariant vnets.Keys == old(vnets.Keys) + KeysOf(data[..i])
        invariant forall key | key in old(vnets) && key !in KeysOf(data[..i]) :: vnets[key] == old(vnets)[key]
        invariant forall key | key in KeysOf(data[..i]) :: LastOnly(vnets[key], data, data[..i], key)
      {
        KeysOfSnoc(data, i);
        assert data[..i + 1][..i] == data[..i];
        AddVnet(data, i);
      }
      assert data[..|data|] == data;
    }
  }

  /** Network `v` holds just the last record of `prefix` with key `key`, and takes its
      fields from it. */
  predicate LastOnly(v: Vnet, data: seq<Subnet>, prefix: seq<Subnet>, key: Key) {
    var k := LastWith(prefix, key);
    0 <= k < |data| && v.subnets == [k] && v.HeadedBy(data[k])
  }

  /** The position of the last record with key `key`, or -1 when there is none. */
  function LastWith(data: seq<Subnet>, key: Key): (k: int)
    ensures -1 <= k < |data|
    ensures k >= 0 ==> VnetSubscriptionName(data[k]) == key
    ensures forall j :: k < j < |data| ==> VnetSubscriptionName(data[j]) != key
    decreases |data|
  {
    if |data| == 0 then -1
    else if VnetSubscriptionName(data[|data| - 1]) == key then |data| - 1
    else LastWith(data[..|data| - 1], key)
  }

  /** A key has a last record exactly when some record has it. */
  lemma {:induction false} LastWithOfKey(data: seq<Subnet>, key: Key)
    ensures LastWith(data, key) >= 0 <==> key in KeysOf(data)
    decreases |data|
  {
    if |data| > 0 {
      LastWithOfKey(data[..|data| - 1], key);
    }
  }

  /** Network `v` holds all records of `prefix` with key `key`, in order, and takes its
      fields from the first. */
  predicate AllInOrder(v: Vnet, data: seq<Subnet>, prefix: seq<Subnet>, key: Key) {
    var m := Members(prefix, key);
    |m| > 0 && m[0] < |data| && v.subnets == m && v.HeadedBy(data[m[0]])
  }

  /** The distinct keys of the records. */
  function KeysOf(data: seq<Subnet>): (keys: set<Key>)
    decreases |data|
  {
    if |data| == 0 then {}
    else KeysOf(data[..|data| - 1]) + {VnetSubscriptionName(data[|data| - 1])}
  }

  lemma KeysOfSnoc(data: seq<Subnet>, i: nat)
    requires i < |data|
    ensures KeysOf(data[..i + 1]) == KeysOf(data[..i]) + {VnetSubscriptionName(data[i])}
  {
    assert data[..i + 1][..i] == data[..i];
  }

  /** The keys are exactly those of the records. */
  lemma {:induction false} KeysOfSpec(data: seq<Subnet>)
    ensures forall key :: key in KeysOf(data) <==> exists k :: 0 <= k < |data| && VnetSubscriptionName(data[k]) == key
    decreases |data|
  {
    if |data| > 0 {
      var n := |data| - 1;
      KeysOfSpec(data[..n]);
      assert forall k :: 0 <= k < n ==> data[..n][k] == data[k];
    }
  }

  /** The positions of the records with key `key`, in increasing order. */
  function Members(data: seq<Subnet>, key: Key): (r: seq<nat>)
    ensures |r| <= |data|
    decreases |data|
  {
    if |data| == 0 then []
    else
      var n := |data| - 1;
      Members(data[..n], key) + (if VnetSubscriptionName(data[n]) == key then [n] else [])
  }

  /** The members are positions of records with the key, in increasing order. */
  lemma {:induction false} MembersSpec(data: seq<Subnet>, key: Key)
    ensures forall m :: 0 <= m < |Members(data, key)| ==>
      Members(data, key)[m] < |data| && VnetSubscriptionName(data[Members(data, key)[m]]) == key
    ensures forall m, n :: 0 <= m < n < |Members(data, key)| ==> Members(data, key)[m] < Members(data, key)[n]
    decreases |data|
  {
    if |data| > 0 {
      var n := |data| - 1;
      MembersSpec(data[..n], key);
      var init := Members(data[..n], key);
      assert forall m :: 0 <= m < |init| ==> data[..n][init[m]] == data[init[m]];
    }
  }

  lemma MembersSnoc(data: seq<Subnet>, i: nat, key: Key)
    requires i < |data|
    ensures Members(data[..i + 1], key) ==
      Members(data[..i], key) + (if VnetSubscriptionName(data[i]) == key then [i] else [])
  {
    assert data[..i + 1][..i] == data[..i];
  }

  /** Every record is among the members of its own key (and, by `MembersSpec`, of no
      other): the networks partition the records. */
  lemma {:induction false} MembersComplete(data: seq<Subnet>, k: nat)
    requires k < |data|
    ensures k in Members(data, VnetSubscriptionName(data[k]))
    decreases |data|
  {
    var n := |data| - 1;
    if k < n {
      MembersComplete(data[..n], k);
    }
  }

  /** Record `k` is a member of key `key` exactly when it has that key: every record
      is in exactly one network, so the networks together hold as many records as
      the input. */
  lemma MembersPartition(data: seq<Subnet>, k: nat, key: Key)
    requires k < |data|
    ensures k in Members(data, key) <==> VnetSubscriptionName(data[k]) == key
  {
    MembersComplete(data, k);
    MembersSpec(data, key);
  }

  /** A key has members exactly when some record has it. */
  lemma {:induction false} MembersOfKey(data: seq<Subnet>, key: Key)
    ensures |Members(data, key)| > 0 <==> key in KeysOf(data)
    decreases |data|
  {
    if |data| > 0 {
      MembersOfKey(data[..|data| - 1], key);
    }
  }

  /** The networks `get_vnets` has built after its first `i` rounds. */
  function Grouped(data: seq<Subnet>, i: nat): (g: map<Key, Vnet>)
    requires i <= |data|
  {
    if i == 0 then map[]
    else
      var g := Grouped(data, i - 1);
      var key := VnetSubscriptionName(data[i - 1]);
      if key in g then g[key := g[key].AddSubnet(i - 1)] else g[key := NewVnet(data[i - 1], i - 1)]
  }

  /** `get_vnets` (current, and the identical legacy loop): one network per distinct
      key, each holding all records with that key in input order and taking its
      fields from the first of them. */
  method GetVnets(data: seq<Subnet>) returns (list: VnetList)
    ensures fresh(list)
    ensures list.vnets.Keys == KeysOf(data)
    ensures forall key | key in list.vnets :: AllInOrder(list.vnets[key], data, data, key)
  {
    list := new VnetList();
    for i := 0 to |data|
      invariant fresh(list) && list.vnets == Grouped(data, i)
    {
      var key := VnetSubscriptionName(data[i]);
      if key in list.vnets {
        // `get_mut` then `add_subnet`: the network is updated where it is filed
        list.vnets := list.vnets[key := list.vnets[key].AddSubnet(i)];
      } else {
        list.AddVnet(data, i);
      }
    }
    GroupedSpec(data, |data|);
    assert data[..|data|] == data;
  }

  /** After `i` rounds there is one network per key of the first `i` records, holding
      all of them in order. */
  lemma {:induction false} GroupedSpec(data: seq<Subnet>, i: nat)
    requires i <= |data|
    ensures Grouped(data, i).Keys == KeysOf(data[..i])
    ensures forall key | key in Grouped(data, i) :: AllInOrder(Grouped(data, i)[key], data, data[..i], key)
  {
    if i > 0 {
      var n := i - 1;
      GroupedSpec(data, n);
      var g := Grouped(data, n);
      var key := VnetSubscriptionName(data[n]);
      KeysOfSnoc(data, n);
      forall key2 | key2 in Grouped(data, i)
        ensures AllInOrder(Grouped(data, i)[key2], data, data[..i], key2)
      {
        if key2 == key {
          if key in g {
            JoinKeeps(g[key], data, n);
          } else {
            NewKeeps(data, n);
          }
        } else {
          MembersSnoc(data, n, key2);
        }
      }
    }
  }

  /** Adding record `i` to the network of its key keeps it complete and in order. */
  lemma JoinKeeps(v: Vnet, data: seq<Subnet>, i: nat)
    requires i < |data|
    requires AllInOrder(v, data, data[..i], VnetSubscriptionName(data[i]))
    ensures AllInOrder(v.AddSubnet(i), data, data[..i + 1], VnetSubscriptionName(data[i]))
  {
    var key := VnetSubscriptionName(data[i]);
    MembersSnoc(data, i, key);
    var m := Members(data[..i], key);
    assert (m + [i])[0] == m[0];
  }

  /** The first record of a key starts a complete network of its own. */
  lemma NewKeeps(data: seq<Subnet>, i: nat)
    requires i < |data| && VnetSubscriptionName(data[i]) !in KeysOf(data[..i])
    ensures AllInOrder(NewVnet(data[i], i), data, data[..i + 1], VnetSubscriptionName(data[i]))
  {
    var key := VnetSubscriptionName(data[i]);
    MembersSnoc(data, i, key);
    MembersOfKey(data[..i], key);
  }
}
