/** IPv4 addresses and CIDR blocks (`models/ipv4.rs`).

    An address is a 32-bit unsigned value; a block is an address with a prefix length
    stored in a `u8`. The prefix length is not checked against 32 by every way of building
    a block, so the operations that need it report an error for a longer one. */
module Ipv4Cidr {
  import opened Results
  import opened Bits
  import opened Text

  const MAX_LENGTH: nat := 32
  const U32_MAX: nat := 0xFFFF_FFFF

  /** `Ipv4Addr`, as its 32-bit value. */
  type Addr = x: nat | x < 0x1_0000_0000

  /** `u8`. */
  type Byte = x: nat | x < 256

  /** A CIDR block. The derived order compares the address first, then the prefix length. */
  datatype Ipv4 = Ipv4(addr: Addr, mask: Byte)


  // ----- block arithmetic -----

  /** Number of addresses in a block with prefix length `len`. */
  function Size(len: nat): (n: nat)
    requires len <= 32
    ensures n >= 1
  {
    Pow2(32 - len)
  }

  lemma MulMonotone(x: nat, y: nat, p: nat)
    requires x <= y
    ensures x * p <= y * p
  {
  }

  /** The end of block `k` of size `s2 * f` is the end of block `kk` of size `s2`. */
  lemma BoundaryMultiple(k: nat, f: nat, s2: nat) returns (kk: nat)
    requires f >= 1 && s2 >= 1
    ensures kk * s2 + s2 == k * (s2 * f) + s2 * f
  {
    kk := (k + 1) * f - 1;
    assert (k + 1) * (s2 * f) == ((k + 1) * f) * s2;
  }

  lemma MulAssoc(x: nat, y: nat, z: nat)
    ensures x * (z * y) == (x * y) * z
  {
  }

  lemma Pow2Of32()
    ensures Pow2(32) == 0x1_0000_0000
  {
    assert Pow2(2) == 4;
    Pow2Add(2, 2);
    Pow2Add(4, 4);
    Pow2Add(8, 8);
    Pow2Add(16, 16);
  }

  lemma NetworkFits(a: Addr, len: nat)
    requires len <= 32
    ensures Shl(Shr(a, 32 - len), 32 - len) + Pow2(32 - len) <= 0x1_0000_0000
  {
    var r := 32 - len;
    var q := Shr(a, r);
    ShrShlBounds(a, r);
    ShlIsMul(q, r);
    Pow2Add(len, r);
    Pow2Of32();
    BelowMultiple(q, Pow2(len), Pow2(r), a);
  }

  /** A multiple of `p` below `n * p` leaves room for one more `p`. */
  lemma BelowMultiple(q: nat, n: nat, p: nat, a: nat)
    requires q * p <= a < n * p
    ensures q * p + p <= n * p
  {
    MulCancelLess(q, n, p);
    MulMonotone(q + 1, n, p);
    assert (q + 1) * p == q * p + p;
  }

  /** The network address of the block of length `len` holding `a`: `a` with its low
      `32 - len` bits cleared. */
  function Network(a: Addr, len: nat): (n: Addr)
    requires len <= 32
    ensures n <= a < n + Size(len)
    ensures n + Size(len) <= 0x1_0000_0000
  {
    ShrShlBounds(a, 32 - len);
    NetworkFits(a, len);
    Shl(Shr(a, 32 - len), 32 - len)
  }

  /** A block of length 32 is the single address. */
  lemma SingleAddress(a: Addr)
    ensures Size(32) == 1 && Network(a, 32) == a
  {
    assert Pow2(0) == 1;
  }

  /** `a` is the network address of its block of length `len`. */
  predicate Aligned(a: Addr, len: nat)
    requires len <= 32
  {
    Network(a, len) == a
  }

  /** The network address keeps every bit of `a` from position `32 - len` up and clears
      the bits below. */
  lemma NetworkBits(a: Addr, len: nat, i: nat)
    requires len <= 32
    ensures Bit(Network(a, len), i) == if i < 32 - len then 0 else Bit(a, i)
  {
    BitOfClearLow(a, 32 - len, i);
  }

  lemma NetworkIsMultiple(a: Addr, len: nat)
    requires len <= 32
    ensures Network(a, len) == Shr(a, 32 - len) * Size(len)
  {
    ShlIsMul(Shr(a, 32 - len), 32 - len);
  }

  /** Every multiple of the block size is a network address. */
  lemma NetworkOfMultiple(k: nat, len: nat)
    requires len <= 32 && k * Size(len) < 0x1_0000_0000
    ensures Aligned(k * Size(len), len)
  {
    ShlIsMul(k, 32 - len);
    ClearLowOfShl(k, 32 - len);
  }

  /** The network address is the only multiple of the block size within one block of `a`. */
  lemma NetworkUnique(a: Addr, len: nat, k: nat)
    requires len <= 32
    requires k * Size(len) <= a < k * Size(len) + Size(len)
    ensures Network(a, len) == k * Size(len)
  {
    NetworkIsMultiple(a, len);
    UniqueMultiple(Shr(a, 32 - len), k, Size(len), a);
  }

  lemma UniqueMultiple(q: nat, k: nat, p: nat, a: nat)
    requires q * p <= a < q * p + p && k * p <= a < k * p + p
    ensures q == k
  {
    assert (q + 1) * p == q * p + p;
    assert (k + 1) * p == k * p + p;
    MulCancelLess(k, q + 1, p);
    MulCancelLess(q, k + 1, p);
  }

  lemma MulCancelLess(x: nat, y: nat, p: nat)
    requires x * p < y * p
    ensures x < y
  {
  }

  /** A network address of a block is also a network address of every smaller block. */
  lemma AlignedFiner(a: Addr, len: nat, len2: nat)
    requires len <= len2 <= 32 && Aligned(a, len)
    ensures Aligned(a, len2)
  {
    var k := Shr(a, 32 - len);
    var f := Pow2(len2 - len);
    var j := k * f;
    assert a == j * Size(len2) by {
      NetworkIsMultiple(a, len);
      Pow2Add(32 - len2, len2 - len);
      MulAssoc(k, f, Size(len2));
    }
    NetworkOfMultiple(j, len2);
  }

  /** Two addresses are in the same block exactly when the first lies between the network
      address and the last address of the second's block. */
  lemma SameBlock(a: Addr, ip: Addr, len: nat)
    requires len <= 32
    ensures Network(ip, len) == Network(a, len)
      <==> Network(a, len) <= ip <= Network(a, len) + Size(len) - 1
  {
    if Network(a, len) <= ip <= Network(a, len) + Size(len) - 1 {
      NetworkIsMultiple(a, len);
      NetworkUnique(ip, len, Shr(a, 32 - len));
    }
  }

  /** The block after `a`'s block, for a smaller block length, starts where `a`'s block
      ends: the end of a block is a boundary for every smaller size. */
  lemma EndOfBlockIsBoundary(a: Addr, len: nat, len2: nat)
    requires len <= len2 <= 32
    requires Network(a, len) + Size(len) < 0x1_0000_0000
    ensures var last := Network(a, len) + Size(len) - 1;
      Network(last, len2) + Size(len2) == Network(a, len) + Size(len)
  {
    var k := Shr(a, 32 - len);
    var f := Pow2(len2 - len);
    NetworkIsMultiple(a, len);
    Pow2Add(32 - len2, len2 - len);
    assert Size(len) == Size(len2) * f;
    var e := Network(a, len) + Size(len);
    var kk := BoundaryMultiple(k, f, Size(len2));
    NetworkUnique(e - 1, len2, kk);
  }

  // ----- the functions of models/ipv4.rs -----

  /** `get_cidr_mask`: the mask with the top `len` of 32 bits set. */
  function GetCidrMask(len: Byte): (r: Result<Addr>)
    ensures r.Ok? <==> len <= MAX_LENGTH
    ensures r.Ok? ==> r.value == Pow2(32) - Size(len)
    ensures r.Err? ==> r.fault == Error(NetworkTooLong)
  {
    if len > MAX_LENGTH then Err(Error(NetworkTooLong))
    else
      var right := MAX_LENGTH - len;
      ClearLowOfOnes(32, right);
      Pow2Of32();
      Ok(Shl(Shr(U32_MAX, right), right))
  }

  /** `get_cidr_mask_ipv4`. */
  function GetCidrMaskIpv4(ip: Ipv4): (r: Result<Addr>)
    ensures r.Ok? <==> ip.mask <= MAX_LENGTH
    ensures r.Ok? ==> r.value == Pow2(32) - Size(ip.mask)
  {
    GetCidrMask(ip.mask)
  }

  /** Bit `i` of the mask is set exactly for the top `len` positions. */
  lemma MaskBits(len: Byte, i: nat)
    requires len <= MAX_LENGTH && i < 32
    ensures Bit(GetCidrMask(len).value, i) == if i >= 32 - len then 1 else 0
  {
    Pow2Of32();
    BitOfClearLow(U32_MAX, 32 - len, i);
    BitOfOnes(32, i);
  }

  /** `cut_addr`: the network address of `addr` for length `len`. */
  function CutAddr(addr: Addr, len: Byte): (r: Result<Addr>)
    ensures r.Ok? <==> len <= MAX_LENGTH
    ensures r.Ok? ==> r.value <= addr < r.value + Size(len) && Aligned(r.value, len)
    ensures r.Err? ==> r.fault == Error(NetworkTooLong)
  {
    if len > MAX_LENGTH then Err(Error(NetworkTooLong))
    else
      NetworkIsMultiple(addr, len);
      NetworkOfMultiple(Shr(addr, 32 - len), len);
      Ok(Network(addr, len))
  }

  /** `cut_addr_ipv4`: the block of length `len` holding the block's address, where `len`
      must make the block smaller. */
  function CutAddrIpv4(ip: Ipv4, len: Byte): (r: Result<Ipv4>)
    ensures r.Ok? <==> ip.mask < len <= MAX_LENGTH
    ensures r.Ok? ==> (r.value.mask == len
      && r.value.addr <= ip.addr < r.value.addr + Size(len) && Aligned(r.value.addr, len))
    ensures len <= ip.mask ==> r == Err(Error(CutToSmaller))
  {
    if len <= ip.mask then Err(Error(CutToSmaller))
    else
      var a :- CutAddr(ip.addr, len);
      Ok(Ipv4(a, len))
  }

  /** `ip_after_subnet`: the first address after the block of length `cidr` holding
      `addr`. A length of 0 shifts a `u32` by 32 bits, which panics. */
  function IpAfterSubnet(addr: Addr, cidr: Byte): (r: Result<Addr>)
    ensures r.Ok? <==> 1 <= cidr <= MAX_LENGTH && Network(addr, cidr) + Size(cidr) <= U32_MAX
    ensures r.Ok? ==> r.value == Network(addr, cidr) + Size(cidr) && Aligned(r.value, cidr)
    ensures r.Err? && r.fault.Panic? <==> cidr == 0
  {
    if cidr > MAX_LENGTH then Err(Error(NetworkTooLong))
    else if cidr == 0 then Err(Panic(ShiftOverflow))
    else
      var size := Shl(1, MAX_LENGTH - cidr);
      var mask := GetCidrMask(cidr).value;
      ShlIsMul(1, MAX_LENGTH - cidr);
      MaskedIsNetwork(addr, cidr);
      var network := And(addr, mask);
      if network + size > U32_MAX then Err(Error(NextOverflowed))
      else
        NextBoundary(addr, cidr);
        Ok(network + size)
  }

  /** AND-ing with the mask of `len` gives the network address. */
  lemma MaskedIsNetwork(addr: Addr, len: Byte)
    requires len <= MAX_LENGTH
    ensures And(addr, GetCidrMask(len).value) == Network(addr, len)
  {
    Pow2Of32();
    AndMaskIsClearLow(addr, 32, 32 - len);
  }

  /** The address after a block is the network address of the next block of that size. */
  lemma NextBoundary(addr: Addr, len: nat)
    requires len <= 32 && Network(addr, len) + Size(len) < 0x1_0000_0000
    ensures Aligned(Network(addr, len) + Size(len), len)
  {
    var q := Shr(addr, 32 - len);
    NetworkIsMultiple(addr, len);
    MulSucc(q, Size(len));
    NetworkOfMultiple(q + 1, len);
    AlignedOfEqual((q + 1) * Size(len), Network(addr, len) + Size(len), len);
  }

  lemma MulSucc(q: nat, p: nat)
    ensures (q + 1) * p == q * p + p
  {
  }

  lemma AlignedOfEqual(a: Addr, b: Addr, len: nat)
    requires len <= 32 && a == b && Aligned(a, len)
    ensures Aligned(b, len)
  {
  }

  /** `broadcast_addr`: the last address of the block of length `len` holding `addr`. */
  function BroadcastAddr(addr: Addr, len: Byte): (r: Result<Addr>)
    ensures r.Ok? <==> len <= MAX_LENGTH
    ensures r.Ok? ==> r.value == Network(addr, len) + Size(len) - 1
    ensures r.Err? ==> r.fault == Error(NetworkTooLong)
  {
    if len > MAX_LENGTH then Err(Error(NetworkTooLong))
    else
      var mask := GetCidrMask(len).value;
      var network := And(addr, mask);
      OrHostBitsIsLast(addr, len);
      Ok(Or(network, NotK(mask, 32)))
  }

  /** OR-ing the inverted mask into the network address gives the block's last address. */
  lemma OrHostBitsIsLast(addr: Addr, len: Byte)
    requires len <= MAX_LENGTH
    ensures var mask := GetCidrMask(len).value;
      Or(And(addr, mask), NotK(mask, 32)) == Network(addr, len) + Size(len) - 1
  {
    var mask := GetCidrMask(len).value;
    MaskedIsNetwork(addr, len);
    HostBits(len);
    OrNetworkHost(addr, len);
    OrOfEqual(And(addr, mask), NotK(mask, 32), Network(addr, len), Size(len) - 1);
  }

  /** Setting the low `32 - len` bits of the network address gives the block's last
      address. */
  lemma OrNetworkHost(addr: Addr, len: nat)
    requires len <= 32
    ensures Or(Network(addr, len), Size(len) - 1) == Network(addr, len) + Size(len) - 1
  {
    var r := 32 - len;
    NetworkIsShl(addr, len);
    OrLowBits(Shr(addr, r), r);
  }

  lemma OrOfEqual(x: nat, y: nat, x2: nat, y2: nat)
    requires x == x2 && y == y2
    ensures Or(x, y) == Or(x2, y2)
  {
  }

  lemma NetworkIsShl(a: Addr, len: nat)
    requires len <= 32
    ensures Network(a, len) == Shl(Shr(a, 32 - len), 32 - len)
    ensures Size(len) == Pow2(32 - len)
  {
  }

  /** The inverted mask of `len` sets the low `32 - len` bits. */
  lemma HostBits(len: Byte)
    requires len <= MAX_LENGTH
    ensures NotK(GetCidrMask(len).value, 32) == Size(len) - 1
  {
    Pow2Of32();
    NotKValue(GetCidrMask(len).value, 32);
  }

  /** The broadcast address keeps the top `len` bits of `addr` and sets all the others. */
  lemma BroadcastBits(addr: Addr, len: Byte, i: nat)
    requires len <= MAX_LENGTH
    ensures Bit(BroadcastAddr(addr, len).value, i) == if i < 32 - len then 1 else Bit(addr, i)
  {
    LastAddressBits(addr, len, i);
    BitOfEqual(BroadcastAddr(addr, len).value, Network(addr, len) + Size(len) - 1, i);
  }

  lemma LastAddressBits(addr: Addr, len: nat, i: nat)
    requires len <= 32
    ensures Bit(Network(addr, len) + Size(len) - 1, i) == if i < 32 - len then 1 else Bit(addr, i)
  {
    var r := 32 - len;
    var q := Shr(addr, r);
    NetworkIsShl(addr, len);
    BitOfEqual(Network(addr, len) + Size(len) - 1, Shl(q, r) + Pow2(r) - 1, i);
    BitOfEqual(Network(addr, len), Shl(q, r), i);
    BroadcastBitsOf(q, r, i);
    NetworkBits(addr, len, i);
  }

  lemma BitOfEqual(x: nat, y: nat, i: nat)
    requires x == y
    ensures Bit(x, i) == Bit(y, i)
  {
  }

  lemma {:induction false} BroadcastBitsOf(q: nat, r: nat, i: nat)
    ensures Bit(Shl(q, r) + Pow2(r) - 1, i) == if i < r then 1 else Bit(Shl(q, r), i)
    decreases r
  {
    if r > 0 {
      assert (Shl(q, r) + Pow2(r) - 1) / 2 == Shl(q, r - 1) + Pow2(r - 1) - 1;
      assert (Shl(q, r) + Pow2(r) - 1) % 2 == 1;
      if i > 0 {
        BroadcastBitsOf(q, r - 1, i - 1);
        assert Shl(q, r) / 2 == Shl(q, r - 1);
      }
    }
  }

  /** `next_subnet_ipv4`: the block after `ip`, of length `mask` (by default the block's
      own). For a longer length it starts after the broadcast address of `ip`, so it is
      always the first address past `ip`'s block measured at the shorter of the two
      lengths. */
  function NextSubnetIpv4(ip: Ipv4, mask: Option<Byte>): (r: Result<Ipv4>)
    ensures var n := mask.GetOr(ip.mask);
      var c := if n <= ip.mask then n else ip.mask;
      r.Ok? <==> 1 <= n <= MAX_LENGTH && Network(ip.addr, c) + Size(c) <= U32_MAX
    ensures var n := mask.GetOr(ip.mask);
      var c := if n <= ip.mask then n else ip.mask;
      r.Ok? ==> r.value == Ipv4(Network(ip.addr, c) + Size(c), n) && Aligned(r.value.addr, n)
    ensures r.Err? && r.fault.Panic? <==> mask.GetOr(ip.mask) == 0
  {
    var newMask := mask.GetOr(ip.mask);
    if newMask <= ip.mask then
      var next :- IpAfterSubnet(ip.addr, newMask);
      Ok(Ipv4(next, newMask))
    else
      NextAfterLast(ip, newMask)
  }

  /** The longer-length branch of `next_subnet_ipv4`: the block of length `len` after the
      last address of `ip`'s block. */
  function NextAfterLast(ip: Ipv4, len: Byte): (r: Result<Ipv4>)
    requires ip.mask < len
    ensures r.Ok? <==> len <= MAX_LENGTH && Network(ip.addr, ip.mask) + Size(ip.mask) <= U32_MAX
    ensures r.Ok? ==> (r.value == Ipv4(Network(ip.addr, ip.mask) + Size(ip.mask), len)
      && Aligned(r.value.addr, len))
    ensures r.Err? ==> r.fault.Error?
  {
    var b :- BroadcastAddr(ip.addr, ip.mask);
    EndOfBlock(ip.addr, ip.mask, b, len);
    var next :- IpAfterSubnet(b, len);
    Ok(Ipv4(next, len))
  }

  /** For a longer length, the block after the last address of a block starts where the
      block ends. */
  lemma EndOfBlock(a: Addr, len: nat, last: Addr, len2: nat)
    requires len < len2 && len <= 32 && last == Network(a, len) + Size(len) - 1
    ensures len2 <= 32 ==>
      (Network(last, len2) + Size(len2) <= U32_MAX <==> Network(a, len) + Size(len) <= U32_MAX)
      && (Network(a, len) + Size(len) <= U32_MAX ==>
        Network(last, len2) + Size(len2) == Network(a, len) + Size(len))
  {
    if len2 <= 32 {
      if Network(a, len) + Size(len) <= U32_MAX {
        EndOfBlockIsBoundary(a, len, len2);
      } else {
        assert Network(last, len2) + Size(len2) > last;
      }
    }
  }

  /** `num_az_hosts`: the addresses of a block less the five Azure reserves; refused for
      blocks of /30 and smaller. */
  function NumAzHosts(len: Byte): (r: Result<nat>)
    ensures r.Ok? <==> len < MAX_LENGTH - 2
    ensures r.Ok? ==> r.value == Size(len) - 5 && r.value >= 3
    ensures r.Err? ==> r.fault == Error(HostsTooLong)
  {
    if len >= MAX_LENGTH - 2 then Err(Error(HostsTooLong))
    else
      ShlIsMul(1, MAX_LENGTH - len);
      assert Pow2(3) == 8;
      Pow2Monotonic(3, MAX_LENGTH - len);
      Ok(Shl(1, MAX_LENGTH - len) - 5)
  }

  /** `lo_mask`: `32 - trailing_zeros(ip)`; its `assert!` that the count is at most 32
      always holds. */
  function LoMask(ip: Addr): (r: nat)
    ensures r <= 32
    ensures ip == 0 <==> r == 0
  {
    TrailingZerosOfAddr(ip);
    32 - TrailingZeros(ip)
  }

  lemma TrailingZerosOfAddr(ip: Addr)
    ensures TrailingZeros(ip) <= 32
    ensures ip > 0 ==> TrailingZeros(ip) < 32
  {
    if ip > 0 {
      Pow2Of32();
      TrailingZerosBound(ip, 32);
    }
  }

  /** `lo_mask` is the shortest length at which `ip` is a network address. */
  lemma AlignedIffLoMask(ip: Addr, len: nat)
    requires len <= 32
    ensures Aligned(ip, len) <==> LoMask(ip) <= len
  {
    if LoMask(ip) <= len {
      ClearLowAligned(ip, 32 - len);
    } else {
      ClearLowMisaligned(ip, 32 - len);
    }
  }

  // ----- methods of Ipv4 -----

  /** `Ipv4::broadcast`: the block's last address, with the same length. */
  function Broadcast(ip: Ipv4): (r: Result<Ipv4>)
    ensures r.Ok? <==> ip.mask <= MAX_LENGTH
    ensures r.Ok? ==> r.value == Ipv4(Network(ip.addr, ip.mask) + Size(ip.mask) - 1, ip.mask)
  {
    var b :- BroadcastAddr(ip.addr, ip.mask);
    Ok(Ipv4(b, ip.mask))
  }

  /** `Ipv4::hi`: the block's last address; panics for a length above 32. */
  function Hi(ip: Ipv4): (r: Result<Addr>)
    ensures r.Ok? <==> ip.mask <= MAX_LENGTH
    ensures r.Ok? ==> r.value == Network(ip.addr, ip.mask) + Size(ip.mask) - 1
    ensures r.Err? ==> r.fault.Panic?
  {
    match BroadcastAddr(ip.addr, ip.mask)
    case Ok(b) => Ok(b)
    case Err(e) => Err(Panic(BroadcastFailed(e.msg)))
  }

  /** `Ipv4::lo`: the block's network address; panics for a length above 32. */
  function Lo(ip: Ipv4): (r: Result<Addr>)
    ensures r.Ok? <==> ip.mask <= MAX_LENGTH
    ensures r.Ok? ==> r.value <= ip.addr && Aligned(r.value, ip.mask)
    ensures r.Ok? ==> ip.addr < r.value + Size(ip.mask)
    ensures r.Err? ==> r.fault.Panic?
  {
    match CutAddr(ip.addr, ip.mask)
    case Ok(a) => Ok(a)
    case Err(e) => Err(Panic(MinimumFailed(ip.addr, ip.mask, e.msg)))
  }

  /** Lo and Hi are the two ends of the block. */
  lemma LoHi(ip: Ipv4)
    requires ip.mask <= MAX_LENGTH
    ensures Lo(ip).value == Network(ip.addr, ip.mask)
    ensures Hi(ip).value == Lo(ip).value + Size(ip.mask) - 1
  {
    NetworkIsMultiple(ip.addr, ip.mask);
    NetworkUnique(ip.addr, ip.mask, Shr(ip.addr, 32 - ip.mask));
    SameBlock(ip.addr, Lo(ip).value, ip.mask);
  }

  // ----- order -----

  /** The derived `Ord`: by address, then by prefix length. */
  predicate Less(a: Ipv4, b: Ipv4) {
    a.addr < b.addr || (a.addr == b.addr && a.mask < b.mask)
  }

  predicate LessEq(a: Ipv4, b: Ipv4) {
    Less(a, b) || a == b
  }

  /** The strict, pointwise form of the total order (`Orders.CidrTotalOrder`) that proofs
      about two given blocks call: exactly one of less, equal and greater holds. */
  lemma LessTotal(a: Ipv4, b: Ipv4)
    ensures Less(a, b) || a == b || Less(b, a)
    ensures !(Less(a, b) && Less(b, a)) && !Less(a, a)
  {
  }

  // ----- the unit-test vectors of models/ipv4.rs -----

  /** Block sizes used by the vectors below. */
  lemma Sizes()
    ensures Size(8) == 0x100_0000 && Size(16) == 0x1_0000 && Size(24) == 0x100
    ensures Size(28) == 16 && Size(29) == 8 && Size(32) == 1
  {
    assert Pow2(4) == 16;
    Pow2Add(4, 4);
    Pow2Add(8, 8);
    Pow2Add(16, 8);
  }

  /** `test_get_cidr_mask`. */
  lemma GetCidrMaskVectors()
    ensures GetCidrMask(0) == Ok(0) && GetCidrMask(8) == Ok(0xFF00_0000)
    ensures GetCidrMask(16) == Ok(0xFFFF_0000) && GetCidrMask(24) == Ok(0xFFFF_FF00)
    ensures GetCidrMask(32) == Ok(0xFFFF_FFFF) && GetCidrMask(33).Err?
  {
    Pow2Of32();
    Sizes();
  }

  /** `test_cut_addr`, on 192.168.1.42. */
  lemma CutAddrVectors()
    ensures CutAddr(0xC0A8_012A, 24) == Ok(0xC0A8_0100)
    ensures CutAddr(0xC0A8_012A, 16) == Ok(0xC0A8_0000)
    ensures CutAddr(0xC0A8_012A, 8) == Ok(0xC000_0000)
    ensures CutAddr(0xC0A8_012A, 32) == Ok(0xC0A8_012A)
    ensures CutAddr(0xC0A8_012A, 33).Err?
  {
    Sizes();
    NetworkUnique(0xC0A8_012A, 24, 0xC0_A801);
    NetworkUnique(0xC0A8_012A, 16, 0xC0A8);
    NetworkUnique(0xC0A8_012A, 8, 0xC0);
    SingleAddress(0xC0A8_012A);
  }

  /** `test_next_subnet`: the address after the blocks around `ip` = 192.168.1.0. */
  lemma IpAfterSubnetVectors(ip: Addr)
    requires ip == 0xC0A8_0100
    ensures IpAfterSubnet(ip, 24) == Ok(0xC0A8_0200)
    ensures IpAfterSubnet(ip, 16) == Ok(0xC0A9_0000)
    ensures IpAfterSubnet(ip, 8) == Ok(0xC100_0000)
    ensures IpAfterSubnet(ip, 32) == Ok(0xC0A8_0101)
  {
    Sizes();
    AfterBlock(ip, 24, 0xC0_A801, 0x100, 0xC0A8_0200);
    AfterBlock(ip, 16, 0xC0A8, 0x1_0000, 0xC0A9_0000);
    AfterBlock(ip, 8, 0xC0, 0x100_0000, 0xC100_0000);
    AfterBlock(ip, 32, 0xC0A8_0100, 1, 0xC0A8_0101);
  }

  /** `test_next_subnet`: no block follows the /24 holding 255.255.255.255. */
  lemma IpAfterSubnetOverflowVector()
    ensures IpAfterSubnet(0xFFFF_FFFF, 24) == Err(Error(NextOverflowed))
  {
    Sizes();
    NetworkUnique(0xFFFF_FFFF, 24, 0xFF_FFFF);
  }

  /** A /0 block has no next block: `1 << 32` panics inside `ip_after_subnet`, and the
      `.unwrap()` of a caller passes that panic on unchanged. */
  lemma NextSubnetOfWholeSpacePanics(a: Addr)
    ensures NextSubnetIpv4(Ipv4(a, 0), None) == Err(Panic(ShiftOverflow))
    ensures NextSubnetIpv4(Ipv4(a, 0), None).Unwrap() == Err(Panic(ShiftOverflow))
  {
  }

  /** The address after the `k`-th block of length `len`, of size `s`, for an address
      inside it, is `next`. */
  lemma AfterBlock(a: Addr, len: Byte, k: nat, s: nat, next: nat)
    requires 1 <= len <= MAX_LENGTH && s == Size(len)
    requires k * s <= a < k * s + s && next == k * s + s <= U32_MAX
    ensures IpAfterSubnet(a, len) == Ok(next)
  {
    NetworkUnique(a, len, k);
  }

  /** `test_next_subnet_ipv4`, the blocks of 10.1.1.0. */
  lemma NextSubnetSmallVectors()
    ensures NextSubnetIpv4(Ipv4(0x0A01_0100, 28), None) == Ok(Ipv4(0x0A01_0110, 28))
    ensures NextSubnetIpv4(Ipv4(0x0A01_0100, 29), None) == Ok(Ipv4(0x0A01_0108, 29))
    ensures NextSubnetIpv4(Ipv4(0x0A01_0108, 29), None) == Ok(Ipv4(0x0A01_0110, 29))
    ensures NextSubnetIpv4(Ipv4(0x0A01_0108, 28), None) == Ok(Ipv4(0x0A01_0110, 28))
  {
    Sizes();
    NetworkUnique(0x0A01_0100, 28, 0x0A0_1010);
    NetworkUnique(0x0A01_0100, 29, 0x140_2020);
    NetworkUnique(0x0A01_0108, 29, 0x140_2021);
    NetworkUnique(0x0A01_0108, 28, 0x0A0_1010);
  }

  /** `test_next_subnet_ipv4`, the /8 block of 192.168.1.0: its broadcast block, and the
      next block at the same and at a longer length. */
  lemma NextSubnetWideVectors()
    ensures Broadcast(Ipv4(0xC0A8_0100, 8)) == Ok(Ipv4(0xC0FF_FFFF, 8))
    ensures NextSubnetIpv4(Ipv4(0xC0A8_0100, 8), None) == Ok(Ipv4(0xC100_0000, 8))
    ensures NextSubnetIpv4(Ipv4(0xC0A8_0100, 8), Some(16)) == Ok(Ipv4(0xC100_0000, 16))
  {
    Sizes();
    NetworkUnique(0xC0A8_0100, 8, 0xC0);
  }

  /** `test_next_subnet_ipv4`, 10.2.3.4/16 and the walk from 10.18.126.0/24 to a /28 and
      back to a /24. */
  lemma NextSubnetMixedVectors()
    ensures NextSubnetIpv4(Ipv4(0x0A02_0304, 16), None) == Ok(Ipv4(0x0A03_0000, 16))
    ensures NextSubnetIpv4(Ipv4(0x0A02_0304, 16), Some(24)) == Ok(Ipv4(0x0A03_0000, 24))
    ensures NextSubnetIpv4(Ipv4(0x0A12_7E00, 24), Some(28)) == Ok(Ipv4(0x0A12_7F00, 28))
    ensures NextSubnetIpv4(Ipv4(0x0A12_7F00, 28), Some(24)) == Ok(Ipv4(0x0A12_8000, 24))
  {
    Sizes();
    NetworkUnique(0x0A02_0304, 16, 0x0A02);
    NetworkUnique(0x0A12_7E00, 24, 0x0A_127E);
    NetworkUnique(0x0A12_7F00, 24, 0x0A_127F);
  }

  /** `test_broadcast_addr`, on 192.168.1.0 and on 255.255.255.255/24. */
  lemma BroadcastAddrVectors()
    ensures BroadcastAddr(0xC0A8_0100, 24) == Ok(0xC0A8_01FF)
    ensures BroadcastAddr(0xC0A8_0100, 16) == Ok(0xC0A8_FFFF)
    ensures BroadcastAddr(0xC0A8_0100, 8) == Ok(0xC0FF_FFFF)
    ensures BroadcastAddr(0xC0A8_0100, 32) == Ok(0xC0A8_0100)
    ensures BroadcastAddr(0xFFFF_FFFF, 24).Ok?
  {
    Sizes();
    NetworkUnique(0xC0A8_0100, 24, 0xC0_A801);
    NetworkUnique(0xC0A8_0100, 16, 0xC0A8);
    NetworkUnique(0xC0A8_0100, 8, 0xC0);
    SingleAddress(0xC0A8_0100);
  }

  /** `test_num_az_hosts`. */
  lemma NumAzHostsVectors()
    ensures NumAzHosts(0) == Ok(4294967291) && NumAzHosts(8) == Ok(16777211)
    ensures NumAzHosts(16) == Ok(65531) && NumAzHosts(24) == Ok(251)
    ensures NumAzHosts(25) == Ok(123) && NumAzHosts(26) == Ok(59)
    ensures NumAzHosts(27) == Ok(27) && NumAzHosts(28) == Ok(11) && NumAzHosts(29) == Ok(3)
    ensures NumAzHosts(30) == Err(Error(HostsTooLong)) && NumAzHosts(33).Err?
  {
    Pow2Of32();
    Sizes();
    assert Pow2(7) == 128;
  }

  /** `test_ip4_cmp`: the derived order on two blocks of the same length. */
  lemma OrderVectors()
    ensures Less(Ipv4(0x0A00_0001, 24), Ipv4(0x0A00_0002, 24))
    ensures LessEq(Ipv4(0x0A00_0001, 24), Ipv4(0x0A00_0002, 24))
    ensures !Less(Ipv4(0x0A00_0002, 24), Ipv4(0x0A00_0001, 24))
  {
  }

  /** `test_ip4_cmp_overlap`: 10.0.0.0/8 comes before the blocks inside it, which are
      ordered by address. */
  lemma OverlapOrderVectors()
    ensures Less(Ipv4(0x0A00_0000, 8), Ipv4(0x0A00_0A00, 24))
    ensures Less(Ipv4(0x0A00_0A00, 24), Ipv4(0x0A00_0A40, 26))
    ensures Less(Ipv4(0x0A00_0000, 8), Ipv4(0x0A00_0A40, 26))
  {
  }

  /** `test_ip4_cmp_overlap`: the ends of 10.0.0.0/8, 10.0.10.0/24 and 10.0.10.64/26, so
      the /8 starts before and ends after the other two. */
  lemma OverlapEndsVectors()
    ensures Lo(Ipv4(0x0A00_0000, 8)) == Ok(0x0A00_0000)
    ensures Hi(Ipv4(0x0A00_0000, 8)) == Ok(0x0AFF_FFFF)
    ensures Lo(Ipv4(0x0A00_0A00, 24)) == Ok(0x0A00_0A00)
    ensures Hi(Ipv4(0x0A00_0A00, 24)) == Ok(0x0A00_0AFF)
    ensures Lo(Ipv4(0x0A00_0A40, 26)) == Ok(0x0A00_0A40)
    ensures Hi(Ipv4(0x0A00_0A40, 26)) == Ok(0x0A00_0A7F)
  {
    Sizes();
    assert Size(26) == 64 by { assert Pow2(6) == 64; }
    BlockEnds(Ipv4(0x0A00_0000, 8), 0x0A);
    BlockEnds(Ipv4(0x0A00_0A00, 24), 0x0A_000A);
    BlockEnds(Ipv4(0x0A00_0A40, 26), 0x28_0029);
  }

  /** The ends of a block whose network address is the `k`-th multiple of its size. */
  lemma BlockEnds(ip: Ipv4, k: nat)
    requires ip.mask <= MAX_LENGTH && ip.addr == k * Size(ip.mask)
    ensures Lo(ip) == Ok(ip.addr) && Hi(ip) == Ok(ip.addr + Size(ip.mask) - 1)
  {
    LoHi(ip);
    NetworkUnique(ip.addr, ip.mask, k);
  }

  /** `test_lo_mask`: 192.168.1.1 is a network address only at length 32. */
  lemma LoMaskVector()
    ensures LoMask(0xC0A8_0101) == 32
  {
  }

  // ----- text -----

  /** The four octets of an address, most significant first. */
  function Octets(a: Addr): (o: seq<nat>)
    ensures |o| == 4 && forall i :: 0 <= i < 4 ==> o[i] < 256
  {
    var r1 := a / 256;
    var r2 := r1 / 256;
    [r2 / 256, r2 % 256, r1 % 256, a % 256]
  }

  function FromOctets(o: seq<nat>): (a: Addr)
    requires |o| == 4 && forall i :: 0 <= i < 4 ==> o[i] < 256
  {
    ((o[0] * 256 + o[1]) * 256 + o[2]) * 256 + o[3]
  }

  lemma OctetsRoundTrip(a: Addr)
    ensures FromOctets(Octets(a)) == a
  {
  }

  lemma FromOctetsRoundTrip(o: seq<nat>)
    requires |o| == 4 && forall i :: 0 <= i < 4 ==> o[i] < 256
    ensures Octets(FromOctets(o)) == o
  {
    var a := FromOctets(o);
    assert a / 256 == (o[0] * 256 + o[1]) * 256 + o[2];
    assert a / 256 / 256 == o[0] * 256 + o[1];
  }

  /** `Display` for `Ipv4Addr`: the dotted quad. */
  function AddrToString(a: Addr): string {
    var o := Octets(a);
    Join([NatToString(o[0]), NatToString(o[1]), NatToString(o[2]), NatToString(o[3])], ".")
  }

  /** One field of `Ipv4Addr::from_str`: one to three ASCII digits, no leading zero,
      at most 255. */
  function ParseOctet(p: string): (r: Option<nat>)
    ensures r.Some? ==> r.value < 256
  {
    if 1 <= |p| <= 3 && AllDigits(p) && !(|p| > 1 && p[0] == '0') && DigitsValue(p) <= 255
    then Some(DigitsValue(p))
    else None
  }

  /** `Ipv4Addr::from_str`: exactly four fields separated by dots. */
  function ParseAddr(s: string): (r: Option<Addr>)
    ensures r.Some? ==> |Split(s, '.')| == 4
  {
    var parts := Split(s, '.');
    if |parts| != 4 then None
    else
      match (ParseOctet(parts[0]), ParseOctet(parts[1]), ParseOctet(parts[2]), ParseOctet(parts[3]))
      case (Some(a), Some(b), Some(c), Some(d)) => Some(FromOctets([a, b, c, d]))
      case _ => None
  }

  lemma ParseOctetOfNatToString(n: nat)
    requires n < 256
    ensures ParseOctet(NatToString(n)) == Some(n)
  {
    DigitsValueOfNatToString(n);
  }

  lemma NoCharInDigits(s: string, c: char)
    requires AllDigits(s) && !IsDigit(c)
    ensures c !in s
  {
  }

  /** Reading back a formatted address gives the address. */
  lemma ParseAddrOfAddrToString(a: Addr)
    ensures ParseAddr(AddrToString(a)) == Some(a)
  {
    var o := Octets(a);
    var parts := [NatToString(o[0]), NatToString(o[1]), NatToString(o[2]), NatToString(o[3])];
    forall i | 0 <= i < 4 ensures '.' !in parts[i] {
      NoCharInDigits(parts[i], '.');
    }
    SplitJoin(parts, '.');
    ParseOctetOfNatToString(o[0]);
    ParseOctetOfNatToString(o[1]);
    ParseOctetOfNatToString(o[2]);
    ParseOctetOfNatToString(o[3]);
    assert [o[0], o[1], o[2], o[3]] == o;
    OctetsRoundTrip(a);
  }

  /** `Display` for `Ipv4` (and its `Serialize`): `addr/len`. */
  function Display(ip: Ipv4): string {
    Join([AddrToString(ip.addr), NatToString(ip.mask)], "/")
  }

  /** `Ipv4::new`: trims the text, then needs exactly one `/`, a dotted-quad address, a
      `u8` length and a length of at most 32. */
  function New(text: string): (r: Result<Ipv4>)
    ensures r.Ok? ==> r.value.mask <= MAX_LENGTH
    ensures r.Ok? ==> |Split(Trim(text), '/')| == 2
    ensures r.Err? ==> r.fault.Error?
    ensures var p := Split(Trim(text), '/');
      r.Ok? <==> |p| == 2 && ParseAddr(p[0]).Some? && ParseU8(p[1]).Ok? && ParseU8(p[1]).value <= MAX_LENGTH
    ensures var p := Split(Trim(text), '/');
      r.Ok? ==> (|p| == 2 && ParseAddr(p[0]).Some? && ParseU8(p[1]).Ok?
                 && r.value == Ipv4(ParseAddr(p[0]).value, ParseU8(p[1]).value))
  {
    var parts := Split(Trim(text), '/');
    if |parts| != 2 then Err(Error(InvalidAddressMask))
    else
      match ParseAddr(parts[0])
      case None => Err(Error(InvalidAddress(parts[0])))
      case Some(addr) => WithMask(addr, parts[1])
  }

  /** The length part of `new`: a `u8` of at most 32. */
  function WithMask(addr: Addr, m: string): (r: Result<Ipv4>)
    ensures r.Ok? ==> r.value.mask <= MAX_LENGTH && r.value.addr == addr
    ensures r.Err? ==> r.fault.Error?
    ensures r.Ok? <==> ParseU8(m).Ok? && ParseU8(m).value <= MAX_LENGTH
    ensures r.Ok? ==> ParseU8(m).Ok? && r.value == Ipv4(addr, ParseU8(m).value)
  {
    var mask :- ParseU8(m);
    if mask > MAX_LENGTH then Err(Error(NetworkTooLong))
    else Ok(Ipv4(addr, mask))
  }

  lemma AddrToStringShape(a: Addr)
    ensures |AddrToString(a)| > 0
    ensures IsDigit(AddrToString(a)[0]) && IsDigit(AddrToString(a)[|AddrToString(a)| - 1])
    ensures '/' !in AddrToString(a)
  {
    var o := Octets(a);
    var s := AddrToString(a);
    var n0, n1, n2, n3 := NatToString(o[0]), NatToString(o[1]), NatToString(o[2]), NatToString(o[3]);
    JoinCons(n2, [n3], ".");
    JoinCons(n1, [n2, n3], ".");
    JoinCons(n0, [n1, n2, n3], ".");
    assert [n0, n1, n2, n3] == [n0] + [n1, n2, n3];
    assert [n1, n2, n3] == [n1] + [n2, n3];
    assert [n2, n3] == [n2] + [n3];
    assert s == n0 + "." + (n1 + "." + (n2 + "." + n3));
    assert s[0] == n0[0];
    assert s[|s| - 1] == n3[|n3| - 1];
    NoCharInDigits(n0, '/');
    NoCharInDigits(n1, '/');
    NoCharInDigits(n2, '/');
    NoCharInDigits(n3, '/');
  }

  /** The text of a block holds only digits, dots and one slash. */
  lemma DisplayAvoids(ip: Ipv4, c: char)
    requires !IsDigit(c) && c != '.' && c != '/'
    ensures c !in Display(ip)
  {
    var o := Octets(ip.addr);
    var parts := [NatToString(o[0]), NatToString(o[1]), NatToString(o[2]), NatToString(o[3])];
    forall i | 0 <= i < 4 ensures c !in parts[i] {
      NoCharInDigits(parts[i], c);
    }
    JoinAvoids(parts, ".", c);
    NoCharInDigits(NatToString(ip.mask), c);
    JoinAvoids([AddrToString(ip.addr), NatToString(ip.mask)], "/", c);
  }

  /** Parsing the text of a block with a length of at most 32 gives the block back. */
  lemma NewOfDisplay(ip: Ipv4)
    requires ip.mask <= MAX_LENGTH
    ensures New(Display(ip)) == Ok(ip)
  {
    DisplayTrimmed(ip);
    DeserializeOfDisplay(ip);
    NewOfDeserialized(Display(ip));
  }

  /** The text of a block starts with a digit and ends with one, so trimming keeps it. */
  lemma DisplayTrimmed(ip: Ipv4)
    ensures Trim(Display(ip)) == Display(ip)
  {
    var s := Display(ip);
    var a := AddrToString(ip.addr);
    var m := NatToString(ip.mask);
    AddrToStringShape(ip.addr);
    JoinCons(a, [m], "/");
    assert [a, m] == [a] + [m];
    assert s == a + "/" + m;
    assert s[0] == a[0];
    assert s[|s| - 1] == m[|m| - 1];
    TrimUnchanged(s);
  }

  /** `Deserialize` for `Ipv4`: like `new` but without trimming and without checking the
      length against 32. */
  function Deserialize(text: string): (r: Result<Ipv4>)
    ensures r.Ok? ==> |Split(text, '/')| == 2
    ensures r.Err? ==> r.fault.Error?
    ensures var p := Split(text, '/');
      r.Ok? <==> |p| == 2 && ParseAddr(p[0]).Some? && ParseU8(p[1]).Ok?
    ensures var p := Split(text, '/');
      r.Ok? ==> (|p| == 2 && ParseAddr(p[0]).Some? && ParseU8(p[1]).Ok?
                 && r.value == Ipv4(ParseAddr(p[0]).value, ParseU8(p[1]).value))
  {
    var parts := Split(text, '/');
    if |parts| != 2 then Err(Error(InvalidCidrFormat(text)))
    else
      match ParseAddr(parts[0])
      case None => Err(Error(InvalidIpAddress(parts[0])))
      case Some(addr) =>
        match ParseU8(parts[1])
        case Err(_) => Err(Error(InvalidSubnetMask(parts[1])))
        case Ok(mask) => Ok(Ipv4(addr, mask))
  }

  /** A mask longer than 32 is read as it is: "10.0.0.0/40" deserializes to a /40 block,
      while `new` refuses the same text. */
  lemma DeserializeLongMaskExample(text: string)
    requires text == "10.0.0.0/40"
    ensures Deserialize(text) == Ok(Ipv4(0x0A00_0000, 40))
    ensures New(text) == Err(Error(NetworkTooLong))
  {
    var ip := Ipv4(0x0A00_0000, 40);
    LongMaskText(ip);
    DeserializeOfDisplay(ip);
    DisplayTrimmed(ip);
    NewOfDeserialized(Display(ip));
  }

  /** On text without surrounding whitespace, `new` reads what `Deserialize` reads, and
      refuses a block that `Deserialize` reads with a length above 32. */
  lemma NewOfDeserialized(text: string)
    requires Trim(text) == text
    ensures Deserialize(text).Ok? && Deserialize(text).value.mask <= MAX_LENGTH ==>
      New(text) == Deserialize(text)
    ensures Deserialize(text).Ok? && Deserialize(text).value.mask > MAX_LENGTH ==>
      New(text) == Err(Error(NetworkTooLong))
    ensures New(text).Ok? ==> Deserialize(text) == New(text)
  {
  }

  /** The text of the /40 block at 10.0.0.0. */
  lemma LongMaskText(ip: Ipv4)
    requires ip == Ipv4(0x0A00_0000, 40)
    ensures Display(ip) == "10.0.0.0/40"
  {
    var a := AddrToString(ip.addr);
    var m := NatToString(ip.mask);
    TenText(ip.addr);
    assert m == "40";
    JoinCons(a, [m], "/");
  }

  /** The text of 10.0.0.0. */
  lemma TenText(a: Addr)
    requires a == 0x0A00_0000
    ensures AddrToString(a) == "10.0.0.0"
  {
    assert Octets(a) == [10, 0, 0, 0];
    assert NatToString(10) == "10" && NatToString(0) == "0";
    JoinCons("10", ["0", "0", "0"], ".");
    JoinCons("0", ["0", "0"], ".");
    JoinCons("0", ["0"], ".");
  }

  /** Every block, whatever its length, survives serialising and deserialising. */
  lemma DeserializeOfDisplay(ip: Ipv4)
    ensures Deserialize(Display(ip)) == Ok(ip)
  {
    var a := AddrToString(ip.addr);
    var m := NatToString(ip.mask);
    AddrToStringShape(ip.addr);
    NoCharInDigits(m, '/');
    SplitJoin([a, m], '/');
    ParseAddrOfAddrToString(ip.addr);
    ParseU8OfNatToString(ip.mask);
  }

  // ----- messages -----

  /** The text of each message, as the source formats it. Two are shortened:
      `DuplicateFound` names the record by its position where `check_for_duplicate_subnets`
      prints the record's `Debug` text, and `ConflictingDuplicate` keeps only the block of
      the multi-line text `de_duplicate_subnets` panics with. */
  function MsgText(m: Msg): string {
    match m
    case NetworkTooLong => "Network length is too long"
    case CutToSmaller => "Network can only be cut to a smaller size"
    case NextOverflowed => "Next subnet calculation overflowed"
    case ShiftOverflow => "attempt to shift left with overflow"
    case HostsTooLong => "Network length is too long or invalid"
    case InvalidDigit => "invalid digit found in string"
    case PosOverflow => "number too large to fit in target type"
    case EmptyInteger => "cannot parse integer from empty string"
    case InvalidAddressMask => "Invalid address/mask"
    case InvalidAddress(t) => "Invalid address " + t
    case InvalidCidrFormat(t) => "invalid CIDR format: " + t
    case InvalidIpAddress(t) => "invalid IP address: " + t
    case InvalidSubnetMask(t) => "invalid subnet mask: " + t
    case BroadcastFailed(e) => "Error calculating broadcast address: " + MsgText(e)
    case MinimumFailed(a, len, e) =>
      "Error calculating minimum address for " + CidrText(a, len) + ": " + MsgText(e)
    case Unwrapped(e) => "called `Result::unwrap()` on an `Err` value: " + MsgText(e)
    case StartMaskTooBig(n) => "start_mask[" + NatToString(n) + "] > 32 should never happen."
    case NextPastSubnet(n, a, len) =>
      "next_ip[" + AddrText(n) + "] > subnet_cidr[" + CidrText(a, len) + "] should never happen."
    case IndexOutOfBounds(len, i) =>
      "index out of bounds: the len is " + NatToString(len) + " but the index is " + NatToString(i)
    case UnwrapNone => "called `Option::unwrap()` on a `None` value"
    case DuplicateFound(k) => "Duplicate found: record " + NatToString(k)
    case DuplicateSrcIndex(src, block) =>
      " Duplicate src_index: (" + NatToString(src) + ", " + NatToString(block) + ")"
    case ConflictingDuplicate(a, len) => "Panic Duplicate[A] cidr:" + CidrText(a, len)
    case GapAfterReduction(ba, bl, sa, sl, na, nl) =>
      "Gap bigger than subnet, after mask reduction !!! next_ip_broadcast:" + DebugText(ba, bl)
      + " subnet:" + CidrText(sa, sl) + "  next_ip" + CidrText(na, nl)
    case GapOverrun(ba, bl, va, vl, sa, sl, pa, pl) =>
      "Gap bigger than subnet or vnet !!! next:" + DebugText(ba, bl) + " vnet:" + DebugText(va, vl)
      + " following_subnet:" + DebugText(sa, sl) + " previous_vnet: " + DebugText(pa, pl)
  }

  /** The derived `Debug` text of a block carried by a message. */
  function DebugText(a: nat, len: nat): string {
    "Ipv4 { addr: " + AddrText(a) + ", mask: " + NatToString(len) + " }"
  }

  /** The dotted text of an address carried by a message. */
  function AddrText(a: nat): string {
    if a < 0x1_0000_0000 then AddrToString(a) else NatToString(a)
  }

  /** The `Display` text of a block carried by a message. */
  function CidrText(a: nat, len: nat): string {
    if a < 0x1_0000_0000 && len < 256 then Display(Ipv4(a, len))
    else AddrText(a) + "/" + NatToString(len)
  }
}
