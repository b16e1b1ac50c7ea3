/** The legacy report walkers: `process_subnet_row` as written in `subnet_add_row.rs`
    and, line for line the same, in `subnet_print.rs`, and the state-struct copy of
    `print_subnets.rs`, with the folds of `subnet_print` and `print_subnets` that drive
    them.

    Unlike the current gap finder, a legacy walker threads a whole block (address and
    length) as the next candidate gap, looks for gaps only while a six-part guard holds,
    reports each gap at the default length (cut down to the subnet's length when it
    would reach the subnet), and after a real subnet moves on to the next /28 boundary
    rather than to the end of the subnet's own block. */
module LegacyWalker {
  import opened Results
  import opened Bits
  import opened Text
  import opened Ipv4Cidr
  import opened Records
  import opened Terminal
  import GapFinder
  import Csv

  /** The copy of `process_subnet_row`: `AddRow` is the one of `subnet_add_row.rs` and
      `subnet_print.rs`, `PrintSubnets` the one of `print_subnets.rs`. */
  datatype Flavor = AddRow | PrintSubnets

  /** 10.17.255.255: both folds look for gaps only above this address. */
  const SKIP_SUBNET_SMALLER_THAN: Addr := Csv.SKIP_SUBNET_SMALLER_THAN
  /** 0.0.0.0/24, the next block and the previous vnet block before the first record. */
  const FOLD_START: Ipv4 := Ipv4(0, 24)
  /** The gap length of `print_subnets`, and the step after every real subnet. */
  const DEFAULT_CIDR_MASK: Byte := 28

  // ----- the strings that differ between the copies -----

  function GapTag(f: Flavor): string {
    if f.AddRow? then "-gap-" else "gap"
  }

  function UnusedNsg(f: Flavor): string {
    if f.AddRow? then "Unused_nsg" else "None"
  }

  function UnusedDns(f: Flavor): string {
    if f.AddRow? then "Unused_dns" else "None"
  }

  /** The security group shown for a record without a block that names none. */
  function MissingNsg(f: Flavor): string {
    if f.AddRow? then "No_NSG_name" else "None"
  }

  /** The DNS servers shown for a record without a block that lists none. */
  function MissingDns(f: Flavor): string {
    if f.AddRow? then "No_Subnet_IPs" else "None"
  }

  /** The count of IP configurations a row carries: the row of `print_subnets.rs` has no
      such column, so it is 0 there. */
  function ConfigCount(f: Flavor, s: Subnet): nat {
    if f.AddRow? then s.ipConfigurationsCount.GetOr(0) else 0
  }

  // ----- rows -----

  /** The row of a record without a block. */
  function NoBlockRow(f: Flavor, s: Subnet, i: nat): Row {
    Row(i + 1, "None", "none", "none", 0, s.subnetName, s.subscriptionName,
      GapFinder.FormatVnetCidr(s.vnetCidr), s.vnetName, s.location,
      LastPart(s.nsg.GetOr(MissingNsg(f)), '/'), Join(s.dnsServers.GetOr([MissingDns(f)]), ","),
      s.subscriptionId, ConfigCount(f, s))
  }

  /** The row of a gap `block` ending at `broadcast`, with `hosts` usable addresses, in
      front of the record `s`. */
  function GapRow(f: Flavor, s: Subnet, block: Ipv4, broadcast: Ipv4, hosts: nat): Row {
    Row(0, GapTag(f), Display(block), AddrToString(broadcast.addr), hosts, "None",
      s.subscriptionName, GapFinder.FormatVnetCidr(s.vnetCidr), s.vnetName, "None",
      UnusedNsg(f), UnusedDns(f), s.subscriptionId, 0)
  }

  /** The row of a record with the block `c`. Its columns are those of the current gap
      finder's row (the security group's last `/` segment or "None", the DNS servers
      joined or "None"); the copy of `print_subnets.rs` has no count column. */
  function RealRow(f: Flavor, s: Subnet, i: nat, c: Ipv4): (r: Result<Row>)
    ensures r.Ok? <==> c.mask < MAX_LENGTH - 2
    ensures r.Err? ==> r.fault.Panic?
  {
    var row :- GapFinder.RealRow(s, i, c);
    Ok(row.(ipConfigurationsCount := ConfigCount(f, s)))
  }

  // ----- the gap loop -----

  /** The condition of the gap loop, evaluated left to right as `&&` does, so that a
      later part is evaluated (and can abort) only when the earlier ones hold: the next
      block is above the skip address, below the subnet, not below the previous vnet
      block, ends before that block does, and has the first octet of the record's first
      vnet block. */
  function GapGuard(next: Ipv4, vnetPrevious: Ipv4, c: Ipv4, vnets: seq<Ipv4>, skip: Addr): (r: Result<bool>)
    ensures r == Ok(true) <==>
      skip < next.addr < c.addr && Less(next, c) && LessEq(vnetPrevious, next)
      && next.mask <= MAX_LENGTH && vnetPrevious.mask <= MAX_LENGTH
      && Less(Broadcast(next).value, Broadcast(vnetPrevious).value)
      && |vnets| > 0 && Octets(next.addr)[0] == Octets(vnets[0].addr)[0]
    ensures r.Err? ==> r.fault.Panic? && skip < next.addr < c.addr && LessEq(vnetPrevious, next)
    ensures next.addr <= skip ==> r == Ok(false)
  {
    if !(skip < next.addr && next.addr < c.addr && Less(next, c) && LessEq(vnetPrevious, next)) then
      Ok(false)
    else
      var nextBroadcast :- Broadcast(next).Unwrap();
      var previousBroadcast :- Broadcast(vnetPrevious).Unwrap();
      if !Less(nextBroadcast, previousBroadcast) then Ok(false)
      else if |vnets| == 0 then Err(Panic(IndexOutOfBounds(0, 0)))
      else Ok(Octets(next.addr)[0] == Octets(vnets[0].addr)[0])
  }

  /** One gap: the block reported, its last address, its row, and the next block. */
  datatype Turn = Turn(block: Ipv4, broadcast: Ipv4, row: Row, next: Ipv4)

  /** The limit a gap must not pass: the broadcast block of the record's first vnet
      block when that is the previous vnet block, the first vnet block itself
      otherwise. */
  function VnetLimit(v: Ipv4, vnetPrevious: Ipv4): Result<Ipv4> {
    if v == vnetPrevious then Broadcast(v).Unwrap() else Ok(v)
  }

  /** A gap block and its last address. */
  datatype Cut = Cut(block: Ipv4, broadcast: Ipv4)

  /** The gap block at `next`: `next` itself, or, when its last address would reach the
      subnet `c`, the block at the same address with the subnet's length; the run
      aborts when even that reaches the subnet. */
  function CutToSubnet(next: Ipv4, c: Ipv4): (r: Result<Cut>)
    ensures r.Err? ==> r.fault.Panic?
    ensures r.Ok? ==> (next.mask <= MAX_LENGTH
      && r.value.block == Ipv4(next.addr, if LessEq(c, Broadcast(next).value) then c.mask else next.mask)
      && r.value.block.mask <= MAX_LENGTH && r.value.broadcast == Broadcast(r.value.block).value
      && Less(r.value.broadcast, c))
  {
    var firstBroadcast :- Broadcast(next).Unwrap();
    LessTotal(c, firstBroadcast);
    if LessEq(c, firstBroadcast) then
      var block := Ipv4(next.addr, c.mask);
      var broadcast :- Broadcast(block).Unwrap();
      LessTotal(c, broadcast);
      if LessEq(c, broadcast) then
        Err(Panic(GapAfterReduction(broadcast.addr, broadcast.mask, c.addr, c.mask, block.addr, block.mask)))
      else Ok(Cut(block, broadcast))
    else Ok(Cut(next, firstBroadcast))
  }

  /** The body of the gap loop at the block `next`: the gap block, cut to the subnet's
      length when needed, its row, the check that the gap ends within the vnet limit
      and before the subnet, and the next block at length `m`. */
  function GapTurn(f: Flavor, s: Subnet, next: Ipv4, vnetPrevious: Ipv4, c: Ipv4, m: Byte): (r: Result<Turn>)
    requires |s.vnetCidr| > 0
    ensures r.Err? ==> r.fault.Panic?
    ensures r.Ok? ==> r.value.next.addr > next.addr
  {
    var cut :- CutToSubnet(next, c);
    var hosts :- NumAzHosts(cut.block.mask).Unwrap();
    var v := s.vnetCidr[0];
    var limit :- VnetLimit(v, vnetPrevious);
    if Less(limit, cut.broadcast) || LessEq(c, cut.broadcast) then
      Err(Panic(GapOverrun(cut.broadcast.addr, cut.broadcast.mask, v.addr, v.mask, c.addr, c.mask,
        vnetPrevious.addr, vnetPrevious.mask)))
    else
      var after :- NextSubnetIpv4(cut.block, Some(m)).Unwrap();
      Ok(Turn(cut.block, cut.broadcast, GapRow(f, s, cut.block, cut.broadcast, hosts), after))
  }

  /** A turn that succeeds reports the block at `next`, cut to the subnet's length
      exactly when its own last address would reach the subnet; the gap ends before the
      subnet and within the vnet limit, is /29 or bigger, and the next block is the one
      after it at length `m`. */
  lemma GapTurnSpec(f: Flavor, s: Subnet, next: Ipv4, vnetPrevious: Ipv4, c: Ipv4, m: Byte)
    requires |s.vnetCidr| > 0 && GapTurn(f, s, next, vnetPrevious, c, m).Ok?
    ensures var t := GapTurn(f, s, next, vnetPrevious, c, m).value;
      next.mask <= MAX_LENGTH
      && t.block == Ipv4(next.addr, if LessEq(c, Broadcast(next).value) then c.mask else next.mask)
      && t.block.mask < MAX_LENGTH - 2 && t.broadcast == Broadcast(t.block).value
      && Less(t.broadcast, c)
      && VnetLimit(s.vnetCidr[0], vnetPrevious).Ok?
      && LessEq(t.broadcast, VnetLimit(s.vnetCidr[0], vnetPrevious).value)
      && t.row == GapRow(f, s, t.block, t.broadcast, NumAzHosts(t.block.mask).value)
      && NextSubnetIpv4(t.block, Some(m)) == Ok(t.next) && t.next.mask == m
  {
    var cut := CutToSubnet(next, c).value;
    var hosts := NumAzHosts(cut.block.mask);
    var limit := VnetLimit(s.vnetCidr[0], vnetPrevious);
    assert hosts.Ok? && limit.Ok?;
    LessTotal(limit.value, cut.broadcast);
    var after := NextSubnetIpv4(cut.block, Some(m));
    assert after.Ok?;
    assert GapTurn(f, s, next, vnetPrevious, c, m)
      == Ok(Turn(cut.block, cut.broadcast, GapRow(f, s, cut.block, cut.broadcast, hosts.value), after.value));
  }

  /** Where the gap loop stops and the gap rows it produced. */
  datatype Gaps = Gaps(next: Ipv4, rows: seq<Row>)

  /** What the gap loop computes from the block `next`: while the guard holds, a turn
      and the loop from the turn's next block. Every turn moves the next address up, so
      the loop ends. */
  function GapRun(f: Flavor, s: Subnet, next: Ipv4, vnetPrevious: Ipv4, c: Ipv4, m: Byte, skip: Addr)
    : (r: Result<Gaps>)
    ensures r.Err? ==> r.fault.Panic?
    decreases c.addr - next.addr
  {
    var go :- GapGuard(next, vnetPrevious, c, s.vnetCidr, skip);
    if !go then Ok(Gaps(next, []))
    else
      var turn :- GapTurn(f, s, next, vnetPrevious, c, m);
      var rest :- GapRun(f, s, turn.next, vnetPrevious, c, m, skip);
      Ok(Gaps(rest.next, [turn.row] + rest.rows))
  }

  /** The result of the loop from a later block, with the rows already produced in
      front. */
  function Prepend(rows: seq<Row>, r: Result<Gaps>): Result<Gaps> {
    if r.Err? then r else Ok(Gaps(r.value.next, rows + r.value.rows))
  }

  /** The `while` loop of `process_subnet_row`. */
  method GapLoop(f: Flavor, s: Subnet, start: Ipv4, vnetPrevious: Ipv4, c: Ipv4, m: Byte, skip: Addr)
    returns (r: Result<Gaps>)
    ensures r == GapRun(f, s, start, vnetPrevious, c, m, skip)
  {
    var next := start;
    var rows: seq<Row> := [];
    ghost var run := GapRun(f, s, start, vnetPrevious, c, m, skip);
    assert run.Ok? ==> [] + run.value.rows == run.value.rows;
    while true
      invariant Prepend(rows, GapRun(f, s, next, vnetPrevious, c, m, skip)) == GapRun(f, s, start, vnetPrevious, c, m, skip)
      decreases c.addr - next.addr
    {
      var go := GapGuard(next, vnetPrevious, c, s.vnetCidr, skip);
      if go.Err? {
        return Err(go.fault);
      }
      if !go.value {
        break;
      }
      var turn := GapTurn(f, s, next, vnetPrevious, c, m);
      if turn.Err? {
        return Err(turn.fault);
      }
      GapRunTurn(f, s, next, vnetPrevious, c, m, skip, rows);
      rows := rows + [turn.value.row];
      next := turn.value.next;
    }
    assert rows + [] == rows;
    return Ok(Gaps(next, rows));
  }

  /** After a successful turn, the loop from the start is the rows so far and the turn's
      row in front of the loop from the turn's next block. */
  lemma GapRunTurn(f: Flavor, s: Subnet, next: Ipv4, vnetPrevious: Ipv4, c: Ipv4, m: Byte, skip: Addr,
    rows: seq<Row>)
    requires GapGuard(next, vnetPrevious, c, s.vnetCidr, skip) == Ok(true)
    requires GapTurn(f, s, next, vnetPrevious, c, m).Ok?
    ensures var turn := GapTurn(f, s, next, vnetPrevious, c, m).value;
      Prepend(rows, GapRun(f, s, next, vnetPrevious, c, m, skip))
      == Prepend(rows + [turn.row], GapRun(f, s, turn.next, vnetPrevious, c, m, skip))
  {
    var turn := GapTurn(f, s, next, vnetPrevious, c, m).value;
    var rest := GapRun(f, s, turn.next, vnetPrevious, c, m, skip);
    if rest.Ok? {
      assert rows + ([turn.row] + rest.value.rows) == rows + [turn.row] + rest.value.rows;
    }
  }

  // ----- process_subnet_row -----

  /** The state a legacy walker threads from one record to the next, and the rows it
      produced. */
  datatype Walked = Walked(next: Ipv4, vnetPrevious: Ipv4, rows: seq<Row>)

  /** The end of `process_subnet_row` for a record with the block `c`, once the gap
      loop is done: the record's own row after the gap rows, its first vnet block as the
      previous one, and the /28 block after the subnet as the next one. The copy of
      `print_subnets.rs` builds the row before it reads the first vnet block, the other
      copy after, so the two abort differently on a record with no vnet block and a
      subnet of /30 or smaller. */
  function Finish(f: Flavor, s: Subnet, i: nat, c: Ipv4, gaps: Gaps): (r: Result<Walked>)
    ensures r.Err? ==> r.fault.Panic?
  {
    if f.AddRow? && |s.vnetCidr| == 0 then Err(Panic(IndexOutOfBounds(0, 0)))
    else
      var row :- RealRow(f, s, i, c);
      if |s.vnetCidr| == 0 then Err(Panic(IndexOutOfBounds(0, 0)))
      else
        var after :- NextSubnetIpv4(c, Some(DEFAULT_CIDR_MASK)).Unwrap();
        Ok(Walked(after, s.vnetCidr[0], gaps.rows + [row]))
  }

  /** What `process_subnet_row` of the copy `f` computes for record `s` at position `i`,
      from the next block and the previous vnet block, with gap length `m` and the skip
      address `skip`. A record without a block gives one row and leaves the state as it
      was. */
  function ProcessSubnetRowSpec(f: Flavor, s: Subnet, i: nat, next: Ipv4, vnetPrevious: Ipv4, m: Byte,
    skip: Addr): (r: Result<Walked>)
    ensures r.Err? ==> r.fault.Panic?
  {
    match s.subnetCidr
    case None => Ok(Walked(next, vnetPrevious, [NoBlockRow(f, s, i)]))
    case Some(c) =>
      var gaps :- GapRun(f, s, next, vnetPrevious, c, m, skip);
      Finish(f, s, i, c, gaps)
  }

  /** `process_subnet_row` of the copy `f`. */
  method ProcessSubnetRow(f: Flavor, s: Subnet, i: nat, next: Ipv4, vnetPrevious: Ipv4, m: Byte, skip: Addr)
    returns (r: Result<Walked>)
    ensures r == ProcessSubnetRowSpec(f, s, i, next, vnetPrevious, m, skip)
  {
    if s.subnetCidr.None? {
      return Ok(Walked(next, vnetPrevious, [NoBlockRow(f, s, i)]));
    }
    var c := s.subnetCidr.value;
    var gaps := GapLoop(f, s, next, vnetPrevious, c, m, skip);
    if gaps.Err? {
      return Err(gaps.fault);
    }
    if f.AddRow? && |s.vnetCidr| == 0 {
      return Err(Panic(IndexOutOfBounds(0, 0)));
    }
    var row := RealRow(f, s, i, c);
    if row.Err? {
      return Err(row.fault);
    }
    if |s.vnetCidr| == 0 {
      return Err(Panic(IndexOutOfBounds(0, 0)));
    }
    var vnetPreviousCidr := s.vnetCidr[0];
    var after := NextSubnetIpv4(c, Some(DEFAULT_CIDR_MASK)).Unwrap();
    if after.Err? {
      return Err(after.fault);
    }
    return Ok(Walked(after.value, vnetPreviousCidr, gaps.value.rows + [row.value]));
  }

  // ----- what one call does -----

  /** A gap row: no record index, the copy's gap tag and placeholders, and the
      subscription and vnet of the record that follows it. */
  predicate IsGapRow(f: Flavor, s: Subnet, row: Row) {
    row.j == 0 && row.gap == GapTag(f) && row.subnetName == "None" && row.location == "None"
    && row.nsg == UnusedNsg(f) && row.dns == UnusedDns(f) && row.ipConfigurationsCount == 0
    && row.subscriptionName == s.subscriptionName && row.vnetName == s.vnetName
    && row.subscriptionId == s.subscriptionId
  }

  /** The gap loop stops at a block where its guard fails, never below where it
      started, and reports nothing from a block at or below the skip address. */
  lemma {:induction false} GapRunStops(f: Flavor, s: Subnet, next: Ipv4, vnetPrevious: Ipv4, c: Ipv4, m: Byte,
    skip: Addr)
    requires GapRun(f, s, next, vnetPrevious, c, m, skip).Ok?
    ensures var g := GapRun(f, s, next, vnetPrevious, c, m, skip).value;
      g.next.addr >= next.addr
      && GapGuard(g.next, vnetPrevious, c, s.vnetCidr, skip) == Ok(false)
      && (next.addr <= skip ==> g == Gaps(next, []))
    decreases c.addr - next.addr
  {
    if GapGuard(next, vnetPrevious, c, s.vnetCidr, skip) == Ok(true) {
      var turn := GapTurn(f, s, next, vnetPrevious, c, m).value;
      GapRunStops(f, s, turn.next, vnetPrevious, c, m, skip);
    }
  }

  /** The gap loop reports gaps only when it starts above the skip address, below the
      subnet and not below the previous vnet block. */
  lemma GapRunStart(f: Flavor, s: Subnet, next: Ipv4, vnetPrevious: Ipv4, c: Ipv4, m: Byte, skip: Addr)
    requires GapRun(f, s, next, vnetPrevious, c, m, skip).Ok?
    ensures |GapRun(f, s, next, vnetPrevious, c, m, skip).value.rows| > 0 ==>
      skip < next.addr < c.addr && LessEq(vnetPrevious, next)
  {
  }

  /** Every row the gap loop reports is a gap row of the record that follows. */
  lemma {:induction false} GapRunRows(f: Flavor, s: Subnet, next: Ipv4, vnetPrevious: Ipv4, c: Ipv4, m: Byte,
    skip: Addr)
    requires GapRun(f, s, next, vnetPrevious, c, m, skip).Ok?
    ensures forall k :: 0 <= k < |GapRun(f, s, next, vnetPrevious, c, m, skip).value.rows| ==>
      IsGapRow(f, s, GapRun(f, s, next, vnetPrevious, c, m, skip).value.rows[k])
    decreases c.addr - next.addr
  {
    if GapGuard(next, vnetPrevious, c, s.vnetCidr, skip) == Ok(true) {
      var turn := GapTurn(f, s, next, vnetPrevious, c, m);
      assert turn.Ok?;
      GapTurnSpec(f, s, next, vnetPrevious, c, m);
      var rest := GapRun(f, s, turn.value.next, vnetPrevious, c, m, skip);
      assert rest.Ok?;
      GapRunRows(f, s, turn.value.next, vnetPrevious, c, m, skip);
      assert GapRun(f, s, next, vnetPrevious, c, m, skip).value.rows == [turn.value.row] + rest.value.rows;
      GapRowsCons(f, s, turn.value.row, rest.value.rows);
    }
  }

  lemma GapRowsCons(f: Flavor, s: Subnet, row: Row, rest: seq<Row>)
    requires IsGapRow(f, s, row) && forall k :: 0 <= k < |rest| ==> IsGapRow(f, s, rest[k])
    ensures forall k :: 0 <= k < |[row] + rest| ==> IsGapRow(f, s, ([row] + rest)[k])
  {
  }

  /** A record without a block gives one row, with "None" for the gap tag and "none"
      for the block and its last address, and leaves the state as it was. A missing
      security group or DNS list shows the copy's placeholder. */
  lemma WithoutBlock(f: Flavor, s: Subnet, i: nat, next: Ipv4, vnetPrevious: Ipv4, m: Byte, skip: Addr)
    requires s.subnetCidr.None?
    ensures var r := ProcessSubnetRowSpec(f, s, i, next, vnetPrevious, m, skip);
      r.Ok? && r.value.next == next && r.value.vnetPrevious == vnetPrevious && |r.value.rows| == 1
      && var row := r.value.rows[0];
      row.j == i + 1 && row.gap == "None" && row.subnetCidr == "none" && row.broadcast == "none"
      && row.azHosts == 0
      && (s.nsg.None? ==> row.nsg == MissingNsg(f))
      && (s.dnsServers.None? ==> row.dns == MissingDns(f))
  {
    assert ProcessSubnetRowSpec(f, s, i, next, vnetPrevious, m, skip) == Ok(Walked(next, vnetPrevious, [NoBlockRow(f, s, i)]));
    NoSeparatorLastPart(MissingNsg(f), '/');
  }

  /** A string without the separator is its own last part. */
  lemma NoSeparatorLastPart(p: string, sep: char)
    requires sep !in p
    ensures LastPart(p, sep) == p
  {
    LastPartSpec(p, sep);
  }

  /** A record with the block `c` that does not abort: it has a vnet block and a subnet
      of /29 or bigger; the gap rows come first and its own row last, and the previous
      vnet block becomes its first vnet block. */
  lemma WithBlock(f: Flavor, s: Subnet, i: nat, next: Ipv4, vnetPrevious: Ipv4, m: Byte, skip: Addr)
    requires s.subnetCidr.Some? && ProcessSubnetRowSpec(f, s, i, next, vnetPrevious, m, skip).Ok?
    ensures var c := s.subnetCidr.value;
      var gaps := GapRun(f, s, next, vnetPrevious, c, m, skip);
      gaps.Ok? && |s.vnetCidr| > 0 && c.mask < MAX_LENGTH - 2 && RealRow(f, s, i, c).Ok?
      && ProcessSubnetRowSpec(f, s, i, next, vnetPrevious, m, skip).value.vnetPrevious == s.vnetCidr[0]
      && ProcessSubnetRowSpec(f, s, i, next, vnetPrevious, m, skip).value.rows
        == gaps.value.rows + [RealRow(f, s, i, c).value]
  {
    var c := s.subnetCidr.value;
    var gaps := GapRun(f, s, next, vnetPrevious, c, m, skip);
    assert gaps.Ok?;
    FinishSpec(f, s, i, c, gaps.value);
  }

  /** After a record with the block `c`, the next block is the /28 block at the first
      /28 boundary after the subnet's address, measured at the subnet's length when that
      is shorter. */
  lemma WithBlockNext(f: Flavor, s: Subnet, i: nat, next: Ipv4, vnetPrevious: Ipv4, m: Byte, skip: Addr)
    requires s.subnetCidr.Some? && ProcessSubnetRowSpec(f, s, i, next, vnetPrevious, m, skip).Ok?
    ensures var c := s.subnetCidr.value;
      var step := if DEFAULT_CIDR_MASK <= c.mask then DEFAULT_CIDR_MASK else c.mask;
      var w := ProcessSubnetRowSpec(f, s, i, next, vnetPrevious, m, skip).value;
      w.next.addr == Network(c.addr, step) + Size(step) && w.next.mask == DEFAULT_CIDR_MASK
  {
    var c := s.subnetCidr.value;
    var gaps := GapRun(f, s, next, vnetPrevious, c, m, skip);
    assert gaps.Ok?;
    FinishSpec(f, s, i, c, gaps.value);
  }

  lemma FinishSpec(f: Flavor, s: Subnet, i: nat, c: Ipv4, gaps: Gaps)
    requires Finish(f, s, i, c, gaps).Ok?
    ensures |s.vnetCidr| > 0 && c.mask < MAX_LENGTH - 2 && RealRow(f, s, i, c).Ok?
    ensures var w := Finish(f, s, i, c, gaps).value;
      var step := if DEFAULT_CIDR_MASK <= c.mask then DEFAULT_CIDR_MASK else c.mask;
      w.vnetPrevious == s.vnetCidr[0] && w.rows == gaps.rows + [RealRow(f, s, i, c).value]
      && w.next.addr == Network(c.addr, step) + Size(step) && w.next.mask == DEFAULT_CIDR_MASK
  {
    var row := RealRow(f, s, i, c);
    var after := NextSubnetIpv4(c, Some(DEFAULT_CIDR_MASK));
    assert row.Ok? && |s.vnetCidr| > 0 && after.Ok?;
    assert Finish(f, s, i, c, gaps) == Ok(Walked(after.value, s.vnetCidr[0], gaps.rows + [row.value]));
  }

  /** The record's own row: index `i + 1`, its gap tag or "Sub" and its source index,
      its block, and the columns of the current gap finder's row. */
  lemma RealRowSpec(f: Flavor, s: Subnet, i: nat, c: Ipv4)
    requires RealRow(f, s, i, c).Ok?
    ensures var row := RealRow(f, s, i, c).value;
      row.j == i + 1 && row.gap == s.gap.GetOr("Sub" + NatToString(s.srcIndex))
      && row.subnetCidr == Display(c) && row.broadcast == AddrToString(Hi(c).value)
      && row.azHosts == Size(c.mask) - 5 && row.subnetName == s.subnetName
      && row.nsg == GapFinder.ExtractNsgName(s.nsg) && row.dns == GapFinder.FormatDnsServers(s.dnsServers)
      && row.ipConfigurationsCount == ConfigCount(f, s)
  {
  }

  /** After a subnet of /28 or bigger, the legacy walkers go on where the current gap
      finder does, just after the subnet's block. */
  lemma StepAfterBigSubnet(c: Ipv4)
    requires c.mask <= DEFAULT_CIDR_MASK && NextSubnetIpv4(c, Some(DEFAULT_CIDR_MASK)).Ok?
    ensures NextSubnetIpv4(c, Some(DEFAULT_CIDR_MASK)).value.addr == Network(c.addr, c.mask) + Size(c.mask)
    ensures NextSubnetIpv4(c, None).Ok?
    ensures NextSubnetIpv4(c, Some(DEFAULT_CIDR_MASK)).value.addr == NextSubnetIpv4(c, None).value.addr
  {
  }

  /** After a /29, they go on at the next /28 boundary: after 10.20.0.0/29 the next
      block is 10.20.0.16/28, while the current gap finder goes on at 10.20.0.8, so the
      upper half 10.20.0.8/29 is never reported as a gap. */
  lemma StepAfterSmallSubnet()
    ensures NextSubnetIpv4(Ipv4(0x0A14_0000, 29), Some(DEFAULT_CIDR_MASK)) == Ok(Ipv4(0x0A14_0010, 28))
    ensures NextSubnetIpv4(Ipv4(0x0A14_0000, 29), None) == Ok(Ipv4(0x0A14_0008, 29))
  {
    assert Pow2(3) == 8 && Pow2(4) == 16;
    NetworkOfMultiple(0xA1_4000, 28);
    NetworkOfMultiple(0x142_8000, 29);
  }

  /** The case of the source's tests: from 0.0.0.0/24 with the skip address 10.17.255.255,
      a subnet 10.0.0.0/24 in the vnet 10.0.0.0/16 gives one row and the next block
      10.0.1.0/28. */
  lemma FirstSubnetExample(f: Flavor, s: Subnet)
    requires s.vnetCidr == [Ipv4(0x0A00_0000, 16)] && s.subnetCidr == Some(Ipv4(0x0A00_0000, 24))
    ensures var r := ProcessSubnetRowSpec(f, s, 1, FOLD_START, FOLD_START, 28, SKIP_SUBNET_SMALLER_THAN);
      r.Ok? && |r.value.rows| == 1 && r.value.next == Ipv4(0x0A00_0100, 28)
  {
    var c := Ipv4(0x0A00_0000, 24);
    assert Pow2(8) == 256;
    NetworkOfMultiple(0x0A_0000, 24);
    assert GapRun(f, s, FOLD_START, FOLD_START, c, 28, SKIP_SUBNET_SMALLER_THAN) == Ok(Gaps(FOLD_START, []));
    assert NextSubnetIpv4(c, Some(28)) == Ok(Ipv4(0x0A00_0100, 28));
    assert RealRow(f, s, 1, c).Ok?;
  }

  // ----- the folds -----

  /** The state after walking `data` in order with the copy `f` and gap length `m`,
      from 0.0.0.0/24 and with the skip address 10.17.255.255, with every row produced
      so far; the first abort ends the walk. */
  function Report(f: Flavor, data: seq<Subnet>, m: Byte): Result<Walked>
    decreases |data|
  {
    if |data| == 0 then Ok(Walked(FOLD_START, FOLD_START, []))
    else
      var w :- Report(f, data[..|data| - 1], m);
      var step :- ProcessSubnetRowSpec(f, data[|data| - 1], |data| - 1, w.next, w.vnetPrevious, m,
        SKIP_SUBNET_SMALLER_THAN);
      Ok(Walked(step.next, step.vnetPrevious, w.rows + step.rows))
  }

  /** The loop of `subnet_print` and `print_subnets` over the records:
      `process_subnet_row` on each in turn, threading the next block and the previous
      vnet block and collecting the rows. */
  method WalkRecords(f: Flavor, data: seq<Subnet>, m: Byte) returns (r: Result<Walked>)
    ensures r == Report(f, data, m)
  {
    var next := FOLD_START;
    var vnetPrevious := FOLD_START;
    var outputRows: seq<Row> := [];
    for i := 0 to |data|
      invariant Report(f, data[..i], m) == Ok(Walked(next, vnetPrevious, outputRows))
    {
      var step := ProcessSubnetRow(f, data[i], i, next, vnetPrevious, m, SKIP_SUBNET_SMALLER_THAN);
      ReportSnoc(f, data, i, m);
      if step.Err? {
        ReportAbort(f, data, i + 1, m);
        return Err(step.fault);
      }
      next := step.value.next;
      vnetPrevious := step.value.vnetPrevious;
      outputRows := outputRows + step.value.rows;
    }
    assert data[..|data|] == data;
    return Ok(Walked(next, vnetPrevious, outputRows));
  }

  /** The walk over one more record. */
  lemma ReportSnoc(f: Flavor, data: seq<Subnet>, i: nat, m: Byte)
    requires i < |data| && Report(f, data[..i], m).Ok?
    ensures var w := Report(f, data[..i], m).value;
      var step := ProcessSubnetRowSpec(f, data[i], i, w.next, w.vnetPrevious, m, SKIP_SUBNET_SMALLER_THAN);
      Report(f, data[..i + 1], m) ==
        if step.Err? then Err(step.fault)
        else Ok(Walked(step.value.next, step.value.vnetPrevious, w.rows + step.value.rows))
  {
    assert data[..i + 1][..i] == data[..i];
  }

  /** Once the walk aborts, the records after do not matter. */
  lemma {:induction false} ReportAbort(f: Flavor, data: seq<Subnet>, k: nat, m: Byte)
    requires k <= |data| && Report(f, data[..k], m).Err?
    ensures Report(f, data, m) == Report(f, data[..k], m)
    decreases |data| - k
  {
    if k < |data| {
      assert data[..k + 1][..k] == data[..k];
      ReportAbort(f, data, k + 1, m);
    } else {
      assert data[..k] == data;
    }
  }

  // ----- what the walk produces -----

  /** The record indices carried by the rows, in order; gap rows carry none. */
  function RecordIndices(rows: seq<Row>): (r: seq<nat>)
    ensures |r| <= |rows|
  {
    if |rows| == 0 then []
    else (if rows[0].j > 0 then [rows[0].j] else []) + RecordIndices(rows[1..])
  }

  lemma {:induction false} RecordIndicesConcat(a: seq<Row>, b: seq<Row>)
    ensures RecordIndices(a + b) == RecordIndices(a) + RecordIndices(b)
  {
    if |a| > 0 {
      assert (a + b)[1..] == a[1..] + b;
      RecordIndicesConcat(a[1..], b);
    } else {
      assert a + b == b;
    }
  }

  lemma {:induction false} GapRowsCarryNoIndex(f: Flavor, s: Subnet, rows: seq<Row>)
    requires forall k :: 0 <= k < |rows| ==> IsGapRow(f, s, rows[k])
    ensures RecordIndices(rows) == []
  {
    if |rows| > 0 {
      GapRowsCarryNoIndex(f, s, rows[1..]);
    }
  }

  lemma OwnRowIndex(gapRows: seq<Row>, row: Row)
    requires RecordIndices(gapRows) == [] && row.j > 0
    ensures RecordIndices(gapRows + [row]) == [row.j]
  {
    RecordIndicesConcat(gapRows, [row]);
    assert [row][1..] == [];
  }

  /** One call gives exactly one row that carries a record index, and that index is
      the record's position plus one; all its other rows are gap rows. */
  lemma StepRecordIndex(f: Flavor, s: Subnet, i: nat, next: Ipv4, vnetPrevious: Ipv4, m: Byte, skip: Addr)
    requires ProcessSubnetRowSpec(f, s, i, next, vnetPrevious, m, skip).Ok?
    ensures RecordIndices(ProcessSubnetRowSpec(f, s, i, next, vnetPrevious, m, skip).value.rows) == [i + 1]
  {
    if s.subnetCidr.None? {
      WithoutBlock(f, s, i, next, vnetPrevious, m, skip);
      var rows := ProcessSubnetRowSpec(f, s, i, next, vnetPrevious, m, skip).value.rows;
      OwnRowIndex([], rows[0]);
      assert rows == [] + [rows[0]];
    } else {
      StepWithBlockIndex(f, s, i, next, vnetPrevious, m, skip);
    }
  }

  lemma StepWithBlockIndex(f: Flavor, s: Subnet, i: nat, next: Ipv4, vnetPrevious: Ipv4, m: Byte, skip: Addr)
    requires s.subnetCidr.Some? && ProcessSubnetRowSpec(f, s, i, next, vnetPrevious, m, skip).Ok?
    ensures RecordIndices(ProcessSubnetRowSpec(f, s, i, next, vnetPrevious, m, skip).value.rows) == [i + 1]
  {
    var c := s.subnetCidr.value;
    WithBlock(f, s, i, next, vnetPrevious, m, skip);
    var gaps := GapRun(f, s, next, vnetPrevious, c, m, skip);
    var row := RealRow(f, s, i, c);
    GapRunRows(f, s, next, vnetPrevious, c, m, skip);
    GapRowsCarryNoIndex(f, s, gaps.value.rows);
    RealRowSpec(f, s, i, c);
    OwnRowIndex(gaps.value.rows, row.value);
  }

  /** 1, 2, ..., n. */
  function Ordinals(n: nat): (r: seq<nat>)
    ensures |r| == n && forall k :: 0 <= k < n ==> r[k] == k + 1
  {
    if n == 0 then [] else Ordinals(n - 1) + [n]
  }

  /** A walk that does not abort gives every record exactly one row of its own, in
      the order of the records and numbered from 1; every other row is a gap row. So
      there are at least as many rows as records. */
  lemma {:induction false} ReportRecordIndices(f: Flavor, data: seq<Subnet>, m: Byte)
    requires Report(f, data, m).Ok?
    ensures RecordIndices(Report(f, data, m).value.rows) == Ordinals(|data|)
    ensures |Report(f, data, m).value.rows| >= |data|
    decreases |data|
  {
    if |data| > 0 {
      var n := |data| - 1;
      ReportLast(f, data, m);
      var w := Report(f, data[..n], m).value;
      ReportRecordIndices(f, data[..n], m);
      StepRecordIndex(f, data[n], n, w.next, w.vnetPrevious, m, SKIP_SUBNET_SMALLER_THAN);
      var step := ProcessSubnetRowSpec(f, data[n], n, w.next, w.vnetPrevious, m, SKIP_SUBNET_SMALLER_THAN).value;
      OrdinalsSnoc(w.rows, step.rows, n);
      assert RecordIndices(w.rows + step.rows) == Ordinals(n + 1);
      assert Report(f, data, m).value.rows == w.rows + step.rows;
      assert |Ordinals(n + 1)| == |data|;
    } else {
      assert Report(f, data, m).value.rows == [];
    }
  }

  /** A walk that does not abort is the walk without its last record, then that
      record's call. */
  lemma ReportLast(f: Flavor, data: seq<Subnet>, m: Byte)
    requires |data| > 0 && Report(f, data, m).Ok?
    ensures Report(f, data[..|data| - 1], m).Ok?
    ensures var n := |data| - 1;
      var w := Report(f, data[..n], m).value;
      var step := ProcessSubnetRowSpec(f, data[n], n, w.next, w.vnetPrevious, m, SKIP_SUBNET_SMALLER_THAN);
      step.Ok? && Report(f, data, m).value.rows == w.rows + step.value.rows
  {
  }

  lemma OrdinalsSnoc(rows: seq<Row>, stepRows: seq<Row>, n: nat)
    requires RecordIndices(rows) == Ordinals(n) && RecordIndices(stepRows) == [n + 1]
    ensures RecordIndices(rows + stepRows) == Ordinals(n + 1)
  {
    RecordIndicesConcat(rows, stepRows);
  }

  /** The walk starts at address 0, below the skip address, so the first record never
      gets gap rows in front of it: it gives exactly its own row. */
  lemma FirstRecordNoGaps(f: Flavor, data: seq<Subnet>, m: Byte)
    requires |data| > 0 && Report(f, data[..1], m).Ok?
    ensures |Report(f, data[..1], m).value.rows| == 1
  {
    var s := data[0];
    assert data[..1][..0] == [];
    assert Report(f, data[..1][..0], m) == Ok(Walked(FOLD_START, FOLD_START, []));
    if s.subnetCidr.Some? {
      var c := s.subnetCidr.value;
      GapRunStops(f, s, FOLD_START, FOLD_START, c, m, SKIP_SUBNET_SMALLER_THAN);
      WithBlock(f, s, 0, FOLD_START, FOLD_START, m, SKIP_SUBNET_SMALLER_THAN);
    } else {
      WithoutBlock(f, s, 0, FOLD_START, FOLD_START, m, SKIP_SUBNET_SMALLER_THAN);
    }
  }

  // ----- subnet_print of subnet_print.rs -----

  /** `subnet_print`: prints the header, walks the records with the copy of
      `subnet_add_row.rs` and the gap length `gapMask`, then prints a line per row, in the
      format and widths of the current CSV report, and the closing note. A panic in the
      walk comes after the header. */
  method SubnetPrint(data: seq<Subnet>, gapMask: Byte) returns (printed: seq<string>, r: Result<()>)
    ensures r.Ok? <==> Report(AddRow, data, gapMask).Ok?
    ensures r.Ok? ==>
      printed == [Csv.Header()] + Csv.CsvLines(Report(AddRow, data, gapMask).value.rows) + [Csv.EndNote()]
    ensures r.Err? ==> r.fault == Report(AddRow, data, gapMask).fault && printed == [Csv.Header()]
  {
    printed := [Csv.Header()];
    var walked := WalkRecords(AddRow, data, gapMask);
    if walked.Err? {
      return printed, Err(walked.fault);
    }
    var lines := Csv.PrintRows(walked.value.rows);
    printed := printed + lines + [Csv.EndNote()];
    r := Ok(());
  }


  // ----- print_subnets of print_subnets.rs -----

  /** The column names of `print_subnets`. */
  function PrintSubnetsColumns(): (names: seq<string>)
    ensures |names| == 12
  {
    ["cnt", "gap", "subnet_cidr", "broadcast", "subnet_name", "subscription_name", "vnet_cidr",
     "vnet_name", "location", "nsg", "dns", "subscription_id"]
  }

  /** The twelve values of a row in `print_subnets`: the host count goes with the last
      address, in parentheses. */
  function PrintSubnetsValues(row: Row): (values: seq<string>)
    ensures |values| == 12
  {
    [NatToString(row.j), row.gap, row.subnetCidr,
     row.broadcast + "(" + NatToString(row.azHosts) + "vm)", row.subnetName, row.subscriptionName,
     row.vnetCidr, row.vnetName, row.location, row.nsg, row.dns, row.subscriptionId]
  }

  /** Each value in double quotes. */
  function QuotedAll(values: seq<string>): (fields: seq<string>)
    ensures |fields| == |values|
    ensures forall k :: 0 <= k < |values| ==> fields[k] == Quoted(values[k])
  {
    if |values| == 0 then [] else [Quoted(values[0])] + QuotedAll(values[1..])
  }

  function PrintSubnetsHeader(): string {
    Join(QuotedAll(PrintSubnetsColumns()), ",")
  }

  function PrintSubnetsLine(row: Row): string {
    Join(QuotedAll(PrintSubnetsValues(row)), ",")
  }

  /** A quoted value holds a character other than the double quote only when the
      value does, and reads back as the value. */
  lemma QuotedField(value: string, c: char)
    requires c != '"' && c != ' ' && c !in value
    ensures c !in Quoted(value)
    ensures ReadField(Quoted(value)) == Some(value)
  {
    assert FormatField(value, 0) == Quoted(value);
    FormatFieldAvoids(value, 0, c);
    FormatFieldRoundTrip(value, 0);
  }

  /** Quoted values split back at commas: as many fields as values, each reading back as
      its value, when no value holds a comma. */
  lemma QuotedAllRoundTrip(values: seq<string>)
    requires |values| >= 1 && forall k :: 0 <= k < |values| ==> ',' !in values[k]
    ensures var parts := Split(Join(QuotedAll(values), ","), ',');
      |parts| == |values| && forall k :: 0 <= k < |values| ==> ReadField(parts[k]) == Some(values[k])
  {
    var fields := QuotedAll(values);
    forall k | 0 <= k < |values|
      ensures ',' !in fields[k] && ReadField(fields[k]) == Some(values[k])
    {
      QuotedField(values[k], ',');
    }
    SplitJoin(fields, ',');
  }

  /** A line of `print_subnets` can be read back: when no string of the row holds a
      comma, it splits into twelve quoted fields that read back as the row's values. */
  lemma PrintSubnetsLineRoundTrip(row: Row)
    requires forall k :: 0 <= k < |Csv.RowTexts(row)| ==> ',' !in Csv.RowTexts(row)[k]
    ensures var parts := Split(PrintSubnetsLine(row), ',');
      |parts| == 12 && forall k :: 0 <= k < 12 ==> ReadField(parts[k]) == Some(PrintSubnetsValues(row)[k])
  {
    var t := Csv.RowTexts(row);
    var values := PrintSubnetsValues(row);
    assert ',' !in t[0] && ',' !in t[1] && ',' !in t[2] && ',' !in t[3] && ',' !in t[4]
      && ',' !in t[5] && ',' !in t[6] && ',' !in t[7] && ',' !in t[8] && ',' !in t[9]
      && ',' !in t[10];
    assert ',' !in NatToString(row.j) && ',' !in NatToString(row.azHosts);
    QuotedAllRoundTrip(values);
  }

  lemma ColumnsAvoidComma()
    ensures forall k :: 0 <= k < |PrintSubnetsColumns()| ==> ',' !in PrintSubnetsColumns()[k]
  {
  }

  /** The header of `print_subnets` splits into its twelve column names, each in
      quotes. */
  lemma PrintSubnetsHeaderColumns()
    ensures var parts := Split(PrintSubnetsHeader(), ',');
      |parts| == 12 && forall k :: 0 <= k < 12 ==> ReadField(parts[k]) == Some(PrintSubnetsColumns()[k])
  {
    ColumnsAvoidComma();
    QuotedAllRoundTrip(PrintSubnetsColumns());
  }

  /** Unlike the CSV report, `print_subnets` prints a header with as many columns as
      every row has. */
  lemma PrintSubnetsHeaderMatchesRows(row: Row)
    requires forall k :: 0 <= k < |Csv.RowTexts(row)| ==> ',' !in Csv.RowTexts(row)[k]
    ensures |Split(PrintSubnetsHeader(), ',')| == |Split(PrintSubnetsLine(row), ',')| == 12
  {
    PrintSubnetsHeaderColumns();
    PrintSubnetsLineRoundTrip(row);
  }

  /** The lines of `print_subnets` after its header, one per row. */
  function PrintSubnetsLines(rows: seq<Row>): (lines: seq<string>)
    ensures |lines| == |rows|
    ensures forall k :: 0 <= k < |rows| ==> lines[k] == PrintSubnetsLine(rows[k])
  {
    if |rows| == 0 then [] else [PrintSubnetsLine(rows[0])] + PrintSubnetsLines(rows[1..])
  }

  /** The second loop of `print_subnets`: one line per row. */
  method PrintSubnetsRows(rows: seq<Row>) returns (lines: seq<string>)
    ensures lines == PrintSubnetsLines(rows)
  {
    lines := [];
    for k := 0 to |rows|
      invariant |lines| == k
      invariant forall j :: 0 <= j < k ==> lines[j] == PrintSubnetsLine(rows[j])
    {
      lines := lines + [Join(QuotedAll(PrintSubnetsValues(rows[k])), ",")];
    }
  }

  /** `print_subnets`: prints its header, walks the records with its own copy and gap
      length /28, then prints a line per row and the closing note. A panic in the walk
      comes after the header. */
  method PrintSubnetsReport(data: seq<Subnet>) returns (printed: seq<string>, r: Result<()>)
    ensures r.Ok? <==> Report(PrintSubnets, data, DEFAULT_CIDR_MASK).Ok?
    ensures r.Ok? ==>
      printed == [PrintSubnetsHeader()]
                 + PrintSubnetsLines(Report(PrintSubnets, data, DEFAULT_CIDR_MASK).value.rows)
                 + [Csv.EndNote()]
    ensures r.Err? ==>
      r.fault == Report(PrintSubnets, data, DEFAULT_CIDR_MASK).fault && printed == [PrintSubnetsHeader()]
  {
    printed := [PrintSubnetsHeader()];
    var walked := WalkRecords(PrintSubnets, data, DEFAULT_CIDR_MASK);
    if walked.Err? {
      return printed, Err(walked.fault);
    }
    var lines := PrintSubnetsRows(walked.value.rows);
    printed := printed + lines + [Csv.EndNote()];
    r := Ok(());
  }

}
