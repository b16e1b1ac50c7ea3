/** The gap finder of `processing/gap_finder.rs`: given the subnets sorted by address,
    it reports every real subnet and, before each, rows for the unused blocks between
    the previous subnet and this one.

    `find_biggest_subnet` and `process_subnet_row` are loops, so they are methods here,
    each proved equal to a recursive function that states what the loop computes; the
    properties of the report are proved about those functions. */
module GapFinder {
  import opened Results
  import opened Bits
  import opened Text
  import opened Ipv4Cidr
  import opened Records
  import LegacyIpv4
  import opened Lists

  const GAP_TAG: string := "-gap-"

  // ----- row fields -----

  /** `format_vnet_cidr`: the blocks' texts separated by commas. */
  function FormatVnetCidr(cidrs: seq<Ipv4>): string {
    Join(DisplayAll(cidrs), ",")
  }

  function DisplayAll(cidrs: seq<Ipv4>): (texts: seq<string>)
    ensures |texts| == |cidrs|
    ensures forall k :: 0 <= k < |cidrs| ==> texts[k] == Display(cidrs[k])
  {
    if |cidrs| == 0 then [] else [Display(cidrs[0])] + DisplayAll(cidrs[1..])
  }

  /** The vnet column can be read back: splitting it at the commas and parsing each part
      gives the vnet's blocks. */
  lemma FormatVnetCidrRoundTrip(cidrs: seq<Ipv4>)
    requires |cidrs| >= 1
    requires forall k :: 0 <= k < |cidrs| ==> cidrs[k].mask <= MAX_LENGTH
    ensures var parts := Split(FormatVnetCidr(cidrs), ',');
      |parts| == |cidrs| && forall k :: 0 <= k < |cidrs| ==> New(parts[k]) == Ok(cidrs[k])
  {
    var texts := DisplayAll(cidrs);
    forall k | 0 <= k < |texts| ensures ',' !in texts[k] {
      DisplayAvoids(cidrs[k], ',');
    }
    SplitJoin(texts, ',');
    forall k | 0 <= k < |cidrs| ensures New(texts[k]) == Ok(cidrs[k]) {
      NewOfDisplay(cidrs[k]);
    }
  }

  /** `extract_nsg_name`: the last `/`-separated segment of the security group's
      resource id, or "None" when there is none. */
  function ExtractNsgName(nsg: Option<string>): (r: string)
  {
    LastPart(nsg.GetOr("None"), '/')
  }

  /** The name is the end of the id after its last `/`, or the whole id when it has no
      `/`. */
  lemma ExtractNsgNameSpec(nsg: Option<string>)
    ensures nsg.None? ==> ExtractNsgName(nsg) == "None"
    ensures nsg.Some? ==> var id := nsg.value; var r := ExtractNsgName(nsg);
      |r| <= |id| && '/' !in r && r == id[|id| - |r|..]
      && (('/' !in id) <==> r == id)
      && (|r| < |id| ==> id[|id| - |r| - 1] == '/')
  {
    match nsg
    case None =>
      var none := "None";
      assert forall k :: 0 <= k < |none| ==> none[k] != '/';
      LastPartSpec(none, '/');
    case Some(id) =>
      LastPartSpec(id, '/');
  }

  /** `format_dns_servers`: the servers separated by commas, or "None". */
  function FormatDnsServers(dns: Option<seq<string>>): string {
    match dns
    case None => "None"
    case Some(servers) => Join(servers, ",")
  }

  /** A non-empty list of servers without commas can be read back from the column. */
  lemma FormatDnsServersRoundTrip(servers: seq<string>)
    requires |servers| >= 1
    requires forall k :: 0 <= k < |servers| ==> ',' !in servers[k]
    ensures Split(FormatDnsServers(Some(servers)), ',') == servers
  {
    SplitJoin(servers, ',');
  }

  /** `create_row_from_subnet`: the row of a subnet, with the given gap tag, block text,
      broadcast text and host count. */
  function CreateRowFromSubnet(s: Subnet, i: nat, gap: string, cidr: string, broadcast: string,
    azHosts: nat): (row: Row)
    ensures row.j == i + 1 && row.gap == gap && row.subnetCidr == cidr
    ensures row.broadcast == broadcast && row.azHosts == azHosts
    ensures row.nsg == ExtractNsgName(s.nsg) && row.dns == FormatDnsServers(s.dnsServers)
    ensures row.ipConfigurationsCount == s.ipConfigurationsCount.GetOr(0)
  {
    Row(i + 1, gap, cidr, broadcast, azHosts, s.subnetName, s.subscriptionName,
      FormatVnetCidr(s.vnetCidr), s.vnetName, s.location, ExtractNsgName(s.nsg),
      FormatDnsServers(s.dnsServers), s.subscriptionId, s.ipConfigurationsCount.GetOr(0))
  }

  // ----- find_biggest_subnet -----

  function Max(a: nat, b: nat): nat {
    if a >= b then a else b
  }

  /** The block of length `m` starting at `ip` ends before `lo`. */
  predicate Fits(ip: Addr, m: nat, lo: Addr)
    requires m <= MAX_LENGTH
  {
    Network(ip, m) + Size(m) - 1 < lo
  }

  /** No block of length 0 fits below an address: it is the whole address space. */
  lemma NothingFitsAtZero(ip: Addr, lo: Addr)
    ensures !Fits(ip, 0, lo)
  {
    Pow2Of32();
  }

  /** At a network address, a smaller block ends no later than a bigger one, so it fits
      whenever the bigger one does. */
  lemma FitsFiner(ip: Addr, k: nat, k2: nat, lo: Addr)
    requires k <= k2 <= MAX_LENGTH && Aligned(ip, k) && Fits(ip, k, lo)
    ensures Fits(ip, k2, lo)
  {
    AlignedFiner(ip, k, k2);
    Pow2Monotonic(32 - k2, 32 - k);
  }

  /** The loop of `find_biggest_subnet` from length `mask` on: the first length whose block
      from `ip` ends before the network address of `below`. `hi` panics once the length
      passes 32, and `lo` panics for a `below` longer than 32. */
  function BiggestFrom(ip: Addr, mask: nat, below: Ipv4): (r: Result<Byte>)
    requires mask <= MAX_LENGTH + 1
    ensures r.Ok? <==> (mask <= MAX_LENGTH && below.mask <= MAX_LENGTH
      && ip < Network(below.addr, below.mask))
    ensures r.Err? ==> r.fault.Panic?
    ensures r.Ok? ==> mask <= r.value <= MAX_LENGTH && Fits(ip, r.value, Network(below.addr, below.mask))
    ensures r.Ok? ==> forall k :: mask <= k < r.value ==> !Fits(ip, k, Network(below.addr, below.mask))
    decreases MAX_LENGTH + 1 - mask
  {
    var hi :- Hi(Ipv4(ip, mask));
    var lo :- Lo(below);
    LoHi(below);
    if hi >= lo then
      SingleAddress(ip);
      var r := BiggestFrom(ip, mask + 1, below);
      if r.Ok? then
        NoFitBefore(ip, mask, Network(below.addr, below.mask), r.value);
        r
      else r
    else Ok(mask)
  }

  /** No block fits from `mask` on when the first does not and none after it does. */
  lemma NoFitBefore(ip: Addr, mask: nat, lo: Addr, v: nat)
    requires mask <= MAX_LENGTH && v <= MAX_LENGTH && !Fits(ip, mask, lo)
    requires forall k :: mask + 1 <= k < v ==> !Fits(ip, k, lo)
    ensures forall k :: mask <= k < v ==> !Fits(ip, k, lo)
  {
  }

  /** What `find_biggest_subnet` computes: the least length at least `start_mask` and at
      least `lo_mask(start_ip)` whose block from `start_ip` ends before the network address
      of `below`. It fails by its `assert!` on `start_mask` or by the panics of `hi` and
      `lo`; its final `assert!` cannot fail, as `hi` panics first. */
  function FindBiggestSpec(startIp: Addr, startMask: Byte, below: Ipv4): (r: Result<Byte>)
    ensures r.Ok? <==> (startMask <= MAX_LENGTH && below.mask <= MAX_LENGTH
      && startIp < Network(below.addr, below.mask))
    ensures r.Err? ==> r.fault.Panic?
    ensures r.Ok? ==> var m := r.value;
      1 <= m <= MAX_LENGTH && startMask <= m && LoMask(startIp) <= m && Aligned(startIp, m)
      && startIp + Size(m) <= Network(below.addr, below.mask)
  {
    if startMask > MAX_LENGTH then Err(Panic(StartMaskTooBig(startMask)))
    else
      var r := BiggestFrom(startIp, Max(startMask, LoMask(startIp)), below);
      if r.Err? then r
      else
        AlignedIffLoMask(startIp, r.value);
        NothingFitsAtZero(startIp, Network(below.addr, below.mask));
        r
  }

  /** The chosen length is the biggest block the gap finder allows: from the lower bound
      on, a block from `start_ip` ends before `below` exactly when its length is at least
      the chosen one. */
  lemma FindBiggestLeast(startIp: Addr, startMask: Byte, below: Ipv4, k: nat)
    requires FindBiggestSpec(startIp, startMask, below).Ok?
    requires Max(startMask, LoMask(startIp)) <= k <= MAX_LENGTH
    ensures Fits(startIp, k, Network(below.addr, below.mask))
      <==> FindBiggestSpec(startIp, startMask, below).value <= k
  {
    var m := FindBiggestSpec(startIp, startMask, below).value;
    var lo := Network(below.addr, below.mask);
    if m <= k {
      FitsFiner(startIp, m, k, lo);
    }
  }

  /** The length the gap finder picks, given the two block sizes around it. */
  lemma FindBiggestValue(startIp: Addr, startMask: Byte, below: Ipv4, m: nat)
    requires startMask <= MAX_LENGTH && below.mask <= MAX_LENGTH
    requires Max(startMask, LoMask(startIp)) <= m <= MAX_LENGTH
    requires startIp + Size(m) <= Network(below.addr, below.mask)
    requires m > Max(startMask, LoMask(startIp)) ==> startIp + Size(m - 1) > Network(below.addr, below.mask)
    ensures FindBiggestSpec(startIp, startMask, below) == Ok(m)
  {
    var lo := Network(below.addr, below.mask);
    AlignedIffLoMask(startIp, m);
    assert Fits(startIp, m, lo);
    var res := FindBiggestSpec(startIp, startMask, below);
    assert res.Ok?;
    FindBiggestLeast(startIp, startMask, below, m);
    if res.value < m {
      AlignedIffLoMask(startIp, m - 1);
      FindBiggestLeast(startIp, startMask, below, m - 1);
      assert false;
    }
    assert res.value == m;
  }

  /** `find_biggest_subnet`: grows the length from the larger of `start_mask` and the
      alignment length until the block ends before `below`. */
  method FindBiggestSubnet(startIp: Addr, startMask: Byte, below: Ipv4) returns (r: Result<Byte>)
    ensures r == FindBiggestSpec(startIp, startMask, below)
  {
    if startMask > MAX_LENGTH {
      return Err(Panic(StartMaskTooBig(startMask)));
    }
    var alignment := LoMask(startIp);
    var nextMask: nat := Max(startMask, alignment);
    ghost var lower := nextMask;
    while true
      invariant lower <= nextMask <= MAX_LENGTH + 1
      invariant BiggestFrom(startIp, lower, below) == BiggestFrom(startIp, nextMask, below)
      decreases MAX_LENGTH + 1 - nextMask
    {
      var hi := Hi(Ipv4(startIp, nextMask));
      if hi.Err? {
        return Err(hi.fault);
      }
      var lo := Lo(below);
      if lo.Err? {
        return Err(lo.fault);
      }
      if hi.value >= lo.value {
        nextMask := nextMask + 1;
      } else {
        break;
      }
    }
    return Ok(nextMask);
  }

  lemma Pow2Table()
    ensures Pow2(4) == 16 && Pow2(8) == 256 && Pow2(9) == 512
    ensures Pow2(19) == 0x8_0000 && Pow2(20) == 0x10_0000
    ensures Pow2(23) == 0x80_0000 && Pow2(24) == 0x100_0000
  {
    Pow2Add(4, 4);
    Pow2Add(8, 1);
    Pow2Add(9, 10);
    Pow2Add(19, 1);
    Pow2Add(20, 3);
    Pow2Add(23, 1);
  }

  /** The first case of the source's tests: from 10.0.0.0 with length 8, below
      10.0.1.0/24, the gap finder picks /24. */
  lemma FindBiggestBelow24()
    ensures FindBiggestSpec(0x0A00_0000, 8, Ipv4(0x0A00_0100, 24)) == Ok(24)
  {
    Pow2Table();
    NetworkOfMultiple(10, 8);
    AlignedIffLoMask(0x0A00_0000, 8);
    NetworkUnique(0x0A00_0100, 24, 0x0A_0001);
    FindBiggestValue(0x0A00_0000, 8, Ipv4(0x0A00_0100, 24), 24);
  }

  /** From 10.0.0.0 with length 8, below 10.11.16.0/24, the gap finder picks /13. */
  lemma FindBiggestBelow13()
    ensures FindBiggestSpec(0x0A00_0000, 8, Ipv4(0x0A0B_1000, 24)) == Ok(13)
  {
    Pow2Table();
    NetworkOfMultiple(10, 8);
    AlignedIffLoMask(0x0A00_0000, 8);
    NetworkUnique(0x0A0B_1000, 24, 0x0A_0B10);
    FindBiggestValue(0x0A00_0000, 8, Ipv4(0x0A0B_1000, 24), 13);
  }

  /** From 10.0.0.0 with length 8, below 10.192.0.0/24, the gap finder picks /9. */
  lemma FindBiggestBelow9()
    ensures FindBiggestSpec(0x0A00_0000, 8, Ipv4(0x0AC0_0000, 24)) == Ok(9)
  {
    Pow2Table();
    NetworkOfMultiple(10, 8);
    AlignedIffLoMask(0x0A00_0000, 8);
    NetworkUnique(0x0AC0_0000, 24, 0x0A_C000);
    FindBiggestValue(0x0A00_0000, 8, Ipv4(0x0AC0_0000, 24), 9);
  }

  /** From 10.6.2.80 with length 16, below 10.6.8.0/24, the gap finder picks /28, the
      alignment of 10.6.2.80. */
  lemma FindBiggestUnaligned()
    ensures FindBiggestSpec(0x0A06_0250, 16, Ipv4(0x0A06_0800, 24)) == Ok(28)
  {
    Pow2Table();
    var ip: Addr := 0x0A06_0250;
    NetworkOfMultiple(0xA0_6025, 28);
    AlignedIffLoMask(ip, 28);
    NetworkUnique(ip, 27, 0x50_3012);
    AlignedIffLoMask(ip, 27);
    NetworkUnique(0x0A06_0800, 24, 0x0A_0608);
    FindBiggestValue(ip, 16, Ipv4(0x0A06_0800, 24), 28);
  }

  // ----- the blocks of a gap -----

  /** `next_subnet_ipv4(block, None).unwrap().lo()` for a block that ends before the end of
      the address space: the first address after the block. */
  function AfterBlock(b: Ipv4): (a: Addr)
    requires 1 <= b.mask <= MAX_LENGTH && Network(b.addr, b.mask) + Size(b.mask) <= U32_MAX
    ensures a == Network(b.addr, b.mask) + Size(b.mask)
  {
    var n := NextSubnetIpv4(b, None).value;
    LoHi(n);
    Lo(n).value
  }

  /** The blocks the loop of `process_subnet_row` reports from `next` on: at each address
      below the subnet's network address, the biggest block the gap finder allows. With a
      length of 32 or less every step succeeds. */
  function GapBlocks(next: Addr, c: Ipv4, m: Byte): (blocks: seq<Ipv4>)
    requires m <= MAX_LENGTH && c.mask <= MAX_LENGTH
    ensures forall k :: 0 <= k < |blocks| ==> 1 <= blocks[k].mask <= MAX_LENGTH
    decreases Network(c.addr, c.mask) - next
  {
    if next >= Network(c.addr, c.mask) then []
    else
      var b := Ipv4(next, FindBiggestSpec(next, m, c).value);
      [b] + GapBlocks(AfterBlock(b), c, m)
  }

  /** The first gap block is aligned and the next one starts where it ends, at or below
      the network address. */
  lemma GapStep(next: Addr, c: Ipv4, m: Byte)
    requires m <= MAX_LENGTH && c.mask <= MAX_LENGTH && next < Network(c.addr, c.mask)
    ensures var b := Ipv4(next, FindBiggestSpec(next, m, c).value);
      1 <= b.mask <= MAX_LENGTH && Aligned(b.addr, b.mask)
      && AfterBlock(b) == next + Size(b.mask) <= Network(c.addr, c.mask)
  {
    var res := FindBiggestSpec(next, m, c);
    assert res.Ok?;
    var b := Ipv4(next, res.value);
    assert AfterBlock(b) == next + Size(b.mask);
  }

  /** One step of the gap blocks below the network address. */
  lemma GapBlocksUnfold(next: Addr, c: Ipv4, m: Byte)
    requires m <= MAX_LENGTH && c.mask <= MAX_LENGTH && next < Network(c.addr, c.mask)
    ensures var b := Ipv4(next, FindBiggestSpec(next, m, c).value);
      GapBlocks(next, c, m) == [b] + GapBlocks(AfterBlock(b), c, m)
  {
  }

  /** `blocks` are aligned blocks laid end to end from `from`, the last ending just before
      `to`. */
  predicate Tiles(blocks: seq<Ipv4>, from: nat, to: nat)
    decreases |blocks|
  {
    if |blocks| == 0 then from == to
    else
      var b := blocks[0];
      b.addr == from && b.mask <= MAX_LENGTH && Aligned(b.addr, b.mask)
      && from + Size(b.mask) <= to && Tiles(blocks[1..], from + Size(b.mask), to)
  }

  /** Address `a` lies in block `k`. */
  predicate Within(blocks: seq<Ipv4>, k: int, a: nat) {
    0 <= k < |blocks| && blocks[k].mask <= MAX_LENGTH
    && blocks[k].addr <= a < blocks[k].addr + Size(blocks[k].mask)
  }

  /** Every address in a tiling lies in one of its blocks. */
  lemma {:induction false} TilesCover(blocks: seq<Ipv4>, from: nat, to: nat, a: nat)
    requires Tiles(blocks, from, to) && from <= a < to
    ensures exists k :: Within(blocks, k, a)
    decreases |blocks|
  {
    var b := blocks[0];
    if a >= from + Size(b.mask) {
      TilesCover(blocks[1..], from + Size(b.mask), to, a);
      var k :| Within(blocks[1..], k, a);
      assert blocks[k + 1] == blocks[1..][k];
      assert Within(blocks, k + 1, a);
    } else {
      assert Within(blocks, 0, a);
    }
  }

  /** The blocks of a tiling are in increasing order, each starting where the one before
      it ends, so they do not overlap. */
  lemma {:induction false} TilesOrdered(blocks: seq<Ipv4>, from: nat, to: nat, k: nat)
    requires Tiles(blocks, from, to) && k + 1 < |blocks|
    ensures blocks[k].mask <= MAX_LENGTH && blocks[k].addr + Size(blocks[k].mask) == blocks[k + 1].addr
    decreases k
  {
    if k > 0 {
      TilesOrdered(blocks[1..], from + Size(blocks[0].mask), to, k - 1);
      assert blocks[1..][k - 1] == blocks[k] && blocks[1..][k] == blocks[k + 1];
    } else {
      assert blocks[1..][0] == blocks[1];
    }
  }

  /** An aligned block in front of a tiling that starts where the block ends. */
  lemma TilesCons(b: Ipv4, rest: seq<Ipv4>, from: nat, mid: nat, to: nat)
    requires b.addr == from && b.mask <= MAX_LENGTH && Aligned(b.addr, b.mask)
    requires mid == from + Size(b.mask) <= to && Tiles(rest, mid, to)
    ensures Tiles([b] + rest, from, to)
  {
    assert ([b] + rest)[1..] == rest;
  }

  /** The gap blocks tile the addresses from `next` up to the subnet's network address,
      and are empty when `next` is already there. */
  lemma {:induction false} GapBlocksTile(next: Addr, c: Ipv4, m: Byte)
    requires m <= MAX_LENGTH && c.mask <= MAX_LENGTH
    ensures Tiles(GapBlocks(next, c, m), next, Max(next, Network(c.addr, c.mask)))
    decreases Network(c.addr, c.mask) - next
  {
    var lo := Network(c.addr, c.mask);
    if next < lo {
      var b := Ipv4(next, FindBiggestSpec(next, m, c).value);
      GapStep(next, c, m);
      var after := AfterBlock(b);
      var rest := GapBlocks(after, c, m);
      GapBlocksUnfold(next, c, m);
      GapBlocksTile(after, c, m);
      assert Max(after, lo) == lo;
      TilesCons(b, rest, next, after, lo);
    }
  }

  /** Each gap block is the block the gap finder chooses at its first address. */
  lemma {:induction false} GapBlocksChosen(next: Addr, c: Ipv4, m: Byte)
    requires m <= MAX_LENGTH && c.mask <= MAX_LENGTH
    ensures forall k :: 0 <= k < |GapBlocks(next, c, m)| ==>
      FindBiggestSpec(GapBlocks(next, c, m)[k].addr, m, c) == Ok(GapBlocks(next, c, m)[k].mask)
    decreases Network(c.addr, c.mask) - next
  {
    if next < Network(c.addr, c.mask) {
      var b := Ipv4(next, FindBiggestSpec(next, m, c).value);
      var rest := GapBlocks(AfterBlock(b), c, m);
      GapBlocksUnfold(next, c, m);
      GapBlocksChosen(AfterBlock(b), c, m);
      var blocks := GapBlocks(next, c, m);
      forall k | 0 <= k < |blocks| ensures FindBiggestSpec(blocks[k].addr, m, c) == Ok(blocks[k].mask) {
        if k > 0 {
          assert blocks[k] == rest[k - 1];
        }
      }
    }
  }

  // ----- gap rows -----

  /** `vnet_cidr.iter().any(|vnet| vnet.contains(ip))`, from position `k` on. */
  function AnyContains(vnets: seq<Ipv4>, ip: Addr, k: nat): (r: Result<bool>)
    requires k <= |vnets|
    ensures r == Ok(false) <==>
      forall n :: k <= n < |vnets| ==> LegacyIpv4.Contains(vnets[n], ip) == Ok(false)
    ensures r == Ok(true) ==>
      exists n :: k <= n < |vnets| && LegacyIpv4.Contains(vnets[n], ip) == Ok(true)
    ensures r.Err? ==> r.fault.Panic? && exists n :: k <= n < |vnets| && vnets[n].mask > MAX_LENGTH
    decreases |vnets| - k
  {
    if k == |vnets| then Ok(false)
    else
      var here :- LegacyIpv4.Contains(vnets[k], ip);
      if here then Ok(true) else AnyContains(vnets, ip, k + 1)
  }

  /** A subscription or vnet column of a gap row: the value of the next subnet when the
      gap lies in its vnet, "None" otherwise. */
  function VnetColumn(inVnet: bool, value: string): string {
    if inVnet then value else "None"
  }

  /** The row of one unused block. The subscription and vnet columns are the next
      subnet's only when the block's first address lies in one of its vnet blocks; a
      block of /30 or smaller has no host count and aborts the run. */
  function GapRow(s: Subnet, block: Ipv4, inVnet: bool): (r: Result<Row>)
    ensures r.Ok? <==> block.mask < MAX_LENGTH - 2
    ensures r.Err? ==> r.fault.Panic?
    ensures r.Ok? ==> var row := r.value;
      row.j == 0 && row.gap == GAP_TAG && row.subnetCidr == Display(block)
      && row.broadcast == AddrToString(Hi(block).value)
      && row.azHosts == Size(block.mask) - 5
      && row.subnetName == "None" && row.location == "None"
      && row.nsg == "Unused_nsg" && row.dns == "Unused_dns" && row.ipConfigurationsCount == 0
      && row.subscriptionName == VnetColumn(inVnet, s.subscriptionName)
      && row.vnetCidr == VnetColumn(inVnet, FormatVnetCidr(s.vnetCidr))
      && row.vnetName == VnetColumn(inVnet, s.vnetName)
      && row.subscriptionId == VnetColumn(inVnet, s.subscriptionId)
  {
    var broadcast :- Broadcast(block).Unwrap();
    var hosts :- NumAzHosts(block.mask).Unwrap();
    Ok(Row(0, GAP_TAG, Display(block), AddrToString(broadcast.addr), hosts, "None",
      VnetColumn(inVnet, s.subscriptionName), VnetColumn(inVnet, FormatVnetCidr(s.vnetCidr)),
      VnetColumn(inVnet, s.vnetName), "None", "Unused_nsg", "Unused_dns",
      VnetColumn(inVnet, s.subscriptionId), 0))
  }

  /** One turn of the loop after the block is chosen: whether the block's first address
      lies in the subnet's vnet, then its row. */
  function GapRowOf(s: Subnet, block: Ipv4): (r: Result<Row>)
    ensures r.Err? ==> r.fault.Panic?
  {
    var inVnet :- AnyContains(s.vnetCidr, block.addr, 0);
    GapRow(s, block, inVnet)
  }

  /** The loop of `process_subnet_row` from `next`: nothing when `next` is at or past the
      subnet's network address; otherwise the `assert!` on the default length, then the
      rows of the gap blocks. */
  function GapWalk(s: Subnet, next: Addr, c: Ipv4, m: Byte): (r: Result<seq<Row>>)
    requires c.mask <= MAX_LENGTH
    ensures r.Err? ==> r.fault.Panic?
  {
    if next >= Network(c.addr, c.mask) then Ok([])
    else if m > MAX_LENGTH then Err(Panic(StartMaskTooBig(m)))
    else
      MapResultsSpec(GapBlocks(next, c, m), b => GapRowOf(s, b));
      MapResults(GapBlocks(next, c, m), b => GapRowOf(s, b))
  }

  // ----- process_subnet_row -----

  /** The state `process_subnet_row` threads from one subnet to the next, and the rows it
      produced. */
  datatype Walked = Walked(next: Addr, vnetPrevious: Ipv4, rows: seq<Row>)

  /** The row of a subnet with a block; a block of /30 or smaller aborts the run. */
  function RealRow(s: Subnet, i: nat, c: Ipv4): (r: Result<Row>)
    ensures r.Ok? <==> c.mask < MAX_LENGTH - 2
    ensures r.Err? ==> r.fault.Panic?
    ensures r.Ok? ==> var row := r.value;
      row.j == i + 1 && row.gap == s.gap.GetOr("Sub" + NatToString(s.srcIndex))
      && row.subnetCidr == Display(c)
      && row.broadcast == AddrToString(Hi(c).value)
      && row.azHosts == Size(c.mask) - 5
      && row.subnetName == s.subnetName && row.vnetName == s.vnetName
      && row.nsg == ExtractNsgName(s.nsg) && row.dns == FormatDnsServers(s.dnsServers)
  {
    var broadcast :- Broadcast(c).Unwrap();
    var hosts :- NumAzHosts(c.mask).Unwrap();
    Ok(CreateRowFromSubnet(s, i, s.gap.GetOr("Sub" + NatToString(s.srcIndex)), Display(c),
      AddrToString(broadcast.addr), hosts))
  }

  /** The end of `process_subnet_row` for a subnet with a block `c` of length 32 or less,
      once the gap rows are known: its own row after them, the address just after its
      block, and its first vnet block. */
  function FinishBlock(s: Subnet, i: nat, c: Ipv4, gaps: seq<Row>): (r: Result<Walked>)
    requires c.mask <= MAX_LENGTH
    ensures r.Err? ==> r.fault.Panic?
  {
    if |s.vnetCidr| == 0 then Err(Panic(IndexOutOfBounds(0, 0)))
    else
      var row :- RealRow(s, i, c);
      var after :- NextSubnetIpv4(c, None).Unwrap();
      LoHi(after);
      Ok(Walked(Lo(after).value, s.vnetCidr[0], gaps + [row]))
  }

  /** What `process_subnet_row` computes. Every failure is an abort: the function has no
      error result. */
  function ProcessSubnetRowSpec(s: Subnet, i: nat, next: Addr, vnetPrevious: Ipv4, defaultMask: Byte)
    : (r: Result<Walked>)
    ensures r.Err? ==> r.fault.Panic?
  {
    match s.subnetCidr
    case None => Ok(Walked(next, vnetPrevious, [CreateRowFromSubnet(s, i, "None", "none", "none", 0)]))
    case Some(c) => ProcessBlock(s, i, next, c, defaultMask)
  }

  /** `process_subnet_row` for a subnet with the block `c`. */
  function ProcessBlock(s: Subnet, i: nat, next: Addr, c: Ipv4, defaultMask: Byte): (r: Result<Walked>)
    ensures r.Err? ==> r.fault.Panic?
  {
    if next > c.addr then
      Err(Panic(NextPastSubnet(next, c.addr, c.mask)))
    else if c.mask > MAX_LENGTH then Err(Lo(c).fault)
    else
      var gaps :- GapWalk(s, next, c, defaultMask);
      FinishBlock(s, i, c, gaps)
  }

  /** What the loop of `process_subnet_row` keeps: the blocks it reported and the
      blocks still to come make up the gap blocks from the first address, and the rows
      so far are those of the blocks reported. */
  predicate LoopKeeps(s: Subnet, next: Addr, nextIp: Addr, c: Ipv4, m: Byte, blocks: seq<Ipv4>, rows: seq<Row>)
    requires c.mask <= MAX_LENGTH
  {
    (m > MAX_LENGTH || next >= Network(c.addr, c.mask) ==> nextIp == next && rows == [])
    && (m <= MAX_LENGTH && next < Network(c.addr, c.mask) ==>
      blocks + GapBlocks(nextIp, c, m) == GapBlocks(next, c, m))
    && MapResults(blocks, b => GapRowOf(s, b)) == Ok(rows)
  }

  /** One turn of the loop: a failing row is the walk's failure; otherwise the loop keeps
      its invariant with the block and its row added, from the address after the block. */
  lemma LoopStep(s: Subnet, next: Addr, nextIp: Addr, c: Ipv4, m: Byte, blocks: seq<Ipv4>, rows: seq<Row>)
    requires c.mask <= MAX_LENGTH && m <= MAX_LENGTH && nextIp < Network(c.addr, c.mask)
    requires LoopKeeps(s, next, nextIp, c, m, blocks, rows)
    ensures var b := Ipv4(nextIp, FindBiggestSpec(nextIp, m, c).value);
      (GapRowOf(s, b).Err? ==> GapWalk(s, next, c, m) == Err(GapRowOf(s, b).fault))
      && (GapRowOf(s, b).Ok? ==>
        LoopKeeps(s, next, AfterBlock(b), c, m, blocks + [b], rows + [GapRowOf(s, b).value]))
  {
    var b := Ipv4(nextIp, FindBiggestSpec(nextIp, m, c).value);
    var later := GapBlocks(AfterBlock(b), c, m);
    var f := b => GapRowOf(s, b);
    GapBlocksUnfold(nextIp, c, m);
    ConcatAssoc(blocks, [b], later);
    MapResultsSnoc(blocks, b, f);
    if GapRowOf(s, b).Err? {
      MapResultsAbort(blocks + [b], later, f);
    }
  }

  /** When the loop ends, its rows are the walk's. */
  lemma LoopDone(s: Subnet, next: Addr, nextIp: Addr, c: Ipv4, m: Byte, blocks: seq<Ipv4>, rows: seq<Row>)
    requires c.mask <= MAX_LENGTH && nextIp >= Network(c.addr, c.mask)
    requires LoopKeeps(s, next, nextIp, c, m, blocks, rows)
    ensures GapWalk(s, next, c, m) == Ok(rows)
  {
    if next < Network(c.addr, c.mask) && m <= MAX_LENGTH {
      assert blocks + [] == blocks;
    }
  }

  /** Once the walk from `next` is known to succeed, `process_subnet_row` is its end. */
  lemma FinishAfterWalk(s: Subnet, i: nat, next: Addr, vnetPrevious: Ipv4, m: Byte, rows: seq<Row>)
    requires s.subnetCidr.Some? && next <= s.subnetCidr.value.addr && s.subnetCidr.value.mask <= MAX_LENGTH
    requires GapWalk(s, next, s.subnetCidr.value, m) == Ok(rows)
    ensures ProcessSubnetRowSpec(s, i, next, vnetPrevious, m) == FinishBlock(s, i, s.subnetCidr.value, rows)
  {
  }

  /** The `while` loop of `process_subnet_row`: from `next`, while below the subnet's
      network address, report the biggest block that fits and move past it. */
  method GapLoop(s: Subnet, next: Addr, c: Ipv4, defaultMask: Byte) returns (r: Result<seq<Row>>)
    requires c.mask <= MAX_LENGTH
    ensures r == GapWalk(s, next, c, defaultMask)
  {
    var rows: seq<Row> := [];
    var lo := Lo(c).value;
    LoHi(c);
    var nextIp := next;
    ghost var blocks: seq<Ipv4> := [];
    while nextIp < lo
      invariant LoopKeeps(s, next, nextIp, c, defaultMask, blocks, rows)
      decreases lo as int - nextIp
    {
      var nextMask := FindBiggestSubnet(nextIp, defaultMask, c);
      if nextMask.Err? {
        return Err(nextMask.fault);
      }
      var nextSubnet := Ipv4(nextIp, nextMask.value);
      var gapInVnet := AnyContains(s.vnetCidr, nextIp, 0);
      var row := if gapInVnet.Ok? then GapRow(s, nextSubnet, gapInVnet.value) else Err(gapInVnet.fault);
      LoopStep(s, next, nextIp, c, defaultMask, blocks, rows);
      if row.Err? {
        return Err(row.fault);
      }
      rows := rows + [row.value];
      blocks := blocks + [nextSubnet];
      nextIp := Lo(NextSubnetIpv4(nextSubnet, None).value).value;
    }
    LoopDone(s, next, nextIp, c, defaultMask, blocks, rows);
    return Ok(rows);
  }

  /** `process_subnet_row`: the gap rows before the subnet, its own row, the address
      after its block and its first vnet block. */
  method ProcessSubnetRow(s: Subnet, i: nat, next: Addr, vnetPrevious: Ipv4, defaultMask: Byte)
    returns (r: Result<Walked>)
    ensures r == ProcessSubnetRowSpec(s, i, next, vnetPrevious, defaultMask)
  {
    if s.subnetCidr.None? {
      return Ok(Walked(next, vnetPrevious, [CreateRowFromSubnet(s, i, "None", "none", "none", 0)]));
    }
    var c := s.subnetCidr.value;
    if next > c.addr {
      return Err(Panic(NextPastSubnet(next, c.addr, c.mask)));
    }
    if c.mask > MAX_LENGTH {
      return Err(Lo(c).fault);
    }
    var rows := GapLoop(s, next, c, defaultMask);
    if rows.Err? {
      return Err(rows.fault);
    }
    FinishAfterWalk(s, i, next, vnetPrevious, defaultMask, rows.value);
    if |s.vnetCidr| == 0 {
      return Err(Panic(IndexOutOfBounds(0, 0)));
    }
    var vnetPreviousCidr := s.vnetCidr[0];
    var row := RealRow(s, i, c);
    if row.Err? {
      return Err(row.fault);
    }
    var after := NextSubnetIpv4(c, None).Unwrap();
    if after.Err? {
      return Err(after.fault);
    }
    LoHi(after.value);
    return Ok(Walked(Lo(after.value).value, vnetPreviousCidr, rows.value + [row.value]));
  }

  /** A subnet without a block gives one row and leaves the state as it was. */
  lemma ProcessWithoutBlock(s: Subnet, i: nat, next: Addr, vnetPrevious: Ipv4, defaultMask: Byte)
    requires s.subnetCidr.None?
    ensures var r := ProcessSubnetRowSpec(s, i, next, vnetPrevious, defaultMask);
      r.Ok? && r.value.next == next && r.value.vnetPrevious == vnetPrevious
      && |r.value.rows| == 1 && r.value.rows[0].j == i + 1 && r.value.rows[0].gap == "None"
      && r.value.rows[0].subnetCidr == "none" && r.value.rows[0].broadcast == "none"
      && r.value.rows[0].azHosts == 0
  {
  }

  /** The gap rows of a subnet: none when `next` is at or past its network address;
      otherwise one row per block of a tiling of the addresses from `next` up to the
      network address, each block the biggest the gap finder allows at its start. */
  lemma GapWalkSpec(s: Subnet, next: Addr, c: Ipv4, m: Byte)
    requires c.mask <= MAX_LENGTH && GapWalk(s, next, c, m).Ok?
    ensures var gaps := GapWalk(s, next, c, m).value;
      (next >= Network(c.addr, c.mask) ==> gaps == [])
      && (next < Network(c.addr, c.mask) ==>
        (m <= MAX_LENGTH
        && var blocks := GapBlocks(next, c, m);
        Tiles(blocks, next, Network(c.addr, c.mask)) && |gaps| == |blocks|
        && forall k :: 0 <= k < |blocks| ==>
          (FindBiggestSpec(blocks[k].addr, m, c) == Ok(blocks[k].mask)
          && GapRowOf(s, blocks[k]) == Ok(gaps[k]))))
  {
    if next < Network(c.addr, c.mask) {
      GapBlocksTile(next, c, m);
      GapBlocksChosen(next, c, m);
      MapResultsSpec(GapBlocks(next, c, m), b => GapRowOf(s, b));
    }
  }

  /** After the gap rows: the subnet needs a vnet block and a block of /29 or bigger; its
      row comes last, the next address is the one just after its block, and the next
      previous block is its first vnet block. */
  lemma FinishBlockSpec(s: Subnet, i: nat, c: Ipv4, gaps: seq<Row>)
    requires c.mask <= MAX_LENGTH && FinishBlock(s, i, c, gaps).Ok?
    ensures var w := FinishBlock(s, i, c, gaps).value;
      c.mask < MAX_LENGTH - 2 && |s.vnetCidr| > 0
      && w.next == Network(c.addr, c.mask) + Size(c.mask)
      && w.vnetPrevious == s.vnetCidr[0]
      && w.rows == gaps + [RealRow(s, i, c).value]
      && w.rows[..|w.rows| - 1] == gaps
  {
    var after := NextSubnetIpv4(c, None).value;
    LoHi(after);
    InitOfSnoc(gaps, RealRow(s, i, c).value);
  }

  /** A successful step for a subnet with a block is the end of the step after a
      successful walk over the gap. */
  lemma ProcessBlockParts(s: Subnet, i: nat, next: Addr, c: Ipv4, m: Byte)
    requires ProcessBlock(s, i, next, c, m).Ok?
    ensures next <= c.addr && c.mask <= MAX_LENGTH && GapWalk(s, next, c, m).Ok?
    ensures ProcessBlock(s, i, next, c, m) == FinishBlock(s, i, c, GapWalk(s, next, c, m).value)
  {
  }

  /** A subnet with a block: the incoming address must not be past it; its own row comes
      last, the next address is the one just after its block, and the next previous
      block is its first vnet block. */
  lemma ProcessWithBlock(s: Subnet, i: nat, next: Addr, vnetPrevious: Ipv4, defaultMask: Byte)
    requires s.subnetCidr.Some?
    ensures var c := s.subnetCidr.value; var r := ProcessSubnetRowSpec(s, i, next, vnetPrevious, defaultMask);
      (next > c.addr ==> r.Err?)
      && (r.Ok? ==> (c.mask < MAX_LENGTH - 2 && |s.vnetCidr| > 0 && next <= c.addr
        && r.value.next == Network(c.addr, c.mask) + Size(c.mask)
        && r.value.vnetPrevious == s.vnetCidr[0]
        && |r.value.rows| >= 1 && r.value.rows[|r.value.rows| - 1] == RealRow(s, i, c).value))
  {
    var c := s.subnetCidr.value;
    if ProcessBlock(s, i, next, c, defaultMask).Ok? {
      ProcessBlockParts(s, i, next, c, defaultMask);
      FinishBlockSpec(s, i, c, GapWalk(s, next, c, defaultMask).value);
    }
  }

  /** The rows before a subnet's own row are one gap row per block of a tiling of the
      addresses from the incoming address up to its network address, each block the
      biggest the gap finder allows there; none when the incoming address is already
      there. */
  lemma ProcessGaps(s: Subnet, i: nat, next: Addr, vnetPrevious: Ipv4, defaultMask: Byte)
    requires s.subnetCidr.Some? && ProcessSubnetRowSpec(s, i, next, vnetPrevious, defaultMask).Ok?
    ensures var c := s.subnetCidr.value;
      var rows := ProcessSubnetRowSpec(s, i, next, vnetPrevious, defaultMask).value.rows;
      |rows| >= 1 && c.mask <= MAX_LENGTH
      && var gaps := rows[..|rows| - 1];
      (next >= Network(c.addr, c.mask) ==> gaps == [])
      && (next < Network(c.addr, c.mask) ==>
        (defaultMask <= MAX_LENGTH
        && var blocks := GapBlocks(next, c, defaultMask);
        Tiles(blocks, next, Network(c.addr, c.mask)) && |gaps| == |blocks|
        && forall k :: 0 <= k < |blocks| ==>
          (FindBiggestSpec(blocks[k].addr, defaultMask, c) == Ok(blocks[k].mask)
          && GapRowOf(s, blocks[k]) == Ok(gaps[k]))))
  {
    var c := s.subnetCidr.value;
    ProcessBlockParts(s, i, next, c, defaultMask);
    var gaps := GapWalk(s, next, c, defaultMask).value;
    GapWalkSpec(s, next, c, defaultMask);
    FinishBlockSpec(s, i, c, gaps);
  }

  /** The first subnet of the report at 10.0.0.0/24, in a vnet 10.0.0.0/16, met at
      10.0.0.0: one row and the next address 10.0.1.0. */
  lemma FirstSubnetExample(s: Subnet)
    requires s.vnetCidr == [Ipv4(0x0A00_0000, 16)] && s.subnetCidr == Some(Ipv4(0x0A00_0000, 24))
    ensures var r := ProcessSubnetRowSpec(s, 1, 0x0A00_0000, Ipv4(0, 24), 28);
      r.Ok? && |r.value.rows| == 1 && r.value.next == 0x0A00_0100
  {
    var c := Ipv4(0x0A00_0000, 24);
    assert Network(c.addr, 24) == 0x0A00_0000 && Size(24) == 256 by {
      assert Pow2(8) == 256;
      NetworkUnique(c.addr, 24, 0x0A_0000);
    }
    assert ProcessSubnetRowSpec(s, 1, 0x0A00_0000, Ipv4(0, 24), 28).Ok? by {
      assert GapWalk(s, 0x0A00_0000, c, 28) == Ok([]);
      assert FinishBlock(s, 1, c, []).Ok?;
    }
    ProcessWithBlock(s, 1, 0x0A00_0000, Ipv4(0, 24), 28);
    ProcessGaps(s, 1, 0x0A00_0000, Ipv4(0, 24), 28);
  }
}
