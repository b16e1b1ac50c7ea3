/** The legacy CIDR module. Its bit arithmetic (`get_cidr_mask`, `cut_addr`,
    `ip_after_subnet`, `broadcast_addr`, `next_subnet_ipv4`, `num_az_hosts`, `lo_mask`,
    `hi`, `lo`, `broadcast`, the derived order and `Display`) is the same as the
    current module's, so it is shared from `Ipv4Cidr`; what differs is here: a
    constructor that aborts on a bad address, and the containment test. */
module LegacyIpv4 {
  import opened Results
  import opened Bits
  import opened Text
  import opened Ipv4Cidr

  /** `Ipv4::new` of the legacy module: an address that does not parse aborts the run;
      the other failures are returned errors. */
  function New(text: string): (r: Result<Ipv4>)
    ensures var parts := Split(Trim(text), '/');
      r.Err? && r.fault.Panic? <==> |parts| == 2 && ParseAddr(parts[0]).None?
    ensures r.Ok? ==> r.value.mask <= MAX_LENGTH
  {
    var parts := Split(Trim(text), '/');
    if |parts| != 2 then Err(Error(InvalidAddressMask))
    else
      match ParseAddr(parts[0])
      case None => Err(Panic(InvalidAddress(parts[0])))
      case Some(addr) => WithMask(addr, parts[1])
  }

  /** The two constructors accept the same texts, build the same blocks, and fail with
      the same message; only the kind of failure for a bad address differs. */
  lemma NewAgreesWithCurrent(text: string)
    ensures New(text).Ok? <==> Ipv4Cidr.New(text).Ok?
    ensures New(text).Ok? ==> New(text) == Ipv4Cidr.New(text)
    ensures New(text).Err? ==> New(text).fault.msg == Ipv4Cidr.New(text).fault.msg
  {
  }

  /** `Ipv4::contains`: `ip` lies between the block's network address and its last
      address. Both ends panic for a length above 32; the upper end is only computed
      when `ip` is not below the lower one. */
  function Contains(net: Ipv4, ip: Addr): (r: Result<bool>)
    ensures r.Ok? <==> net.mask <= MAX_LENGTH
    ensures r.Ok? ==> (r.value <==>
      Network(net.addr, net.mask) <= ip <= Network(net.addr, net.mask) + Size(net.mask) - 1)
    ensures r.Err? ==> r.fault.Panic?
  {
    var lo :- Lo(net);
    LoHi(net);
    if ip < lo then Ok(false)
    else Ok(ip <= Hi(net).value)
  }

  /** A block contains exactly the addresses that share its network address. */
  lemma ContainsIffSameNetwork(net: Ipv4, ip: Addr)
    requires net.mask <= MAX_LENGTH
    ensures Contains(net, ip).value <==> Network(ip, net.mask) == Network(net.addr, net.mask)
  {
    SameBlock(net.addr, ip, net.mask);
  }

  /** A block contains its own network address and its broadcast address, and nothing
      just outside them. */
  lemma ContainsEnds(net: Ipv4)
    requires net.mask <= MAX_LENGTH
    ensures Contains(net, Lo(net).value).value
    ensures Contains(net, Hi(net).value).value
    ensures Lo(net).value > 0 ==> !Contains(net, Lo(net).value - 1).value
    ensures Hi(net).value < U32_MAX ==> !Contains(net, Hi(net).value + 1).value
  {
    LoHi(net);
  }

  /** The broadcast address of a block's broadcast address is itself: for example
      192.255.255.255/8. */
  lemma BroadcastIdempotent(ip: Ipv4)
    requires ip.mask <= MAX_LENGTH
    ensures Broadcast(Broadcast(ip).value) == Broadcast(ip)
  {
    var b := Broadcast(ip).value;
    var n := Network(ip.addr, ip.mask);
    assert b.addr == n + Size(ip.mask) - 1 && b.mask == ip.mask;
    SameBlock(ip.addr, b.addr, ip.mask);
    assert Network(b.addr, b.mask) == n;
    assert Broadcast(b).value == b;
  }
}
