/** IPv4 address geometry used by the pool allocator (addr.go): subnet bounds and
    the interval packing primitives. */
module Addresses {
  import opened Common

  const U32 := 0x1_0000_0000

  /** uint32 arithmetic wraps. */
  function Wrap(x: int): nat { x % U32 }

  type Addr = x: int | 0 <= x < U32
  type PrefixLen = n: int | 0 <= n <= 32

  datatype Cidr = Unparseable | V6 | V4(ip: Addr, len: PrefixLen)

  function Pow2(n: nat): nat
    ensures Pow2(n) >= 1
  {
    if n == 0 then 1 else 2 * Pow2(n - 1)
  }

  lemma {:induction false} Pow2Monotone(m: nat, n: nat)
    requires m <= n
    ensures Pow2(m) <= Pow2(n)
  {
    if m < n { Pow2Monotone(m, n - 1); }
  }

  lemma Pow2At32()
    ensures Pow2(32) == U32 && Pow2(8) == 256
  {
    assert Pow2(8) == 256;
    assert Pow2(16) == 65536;
    assert Pow2(24) == 16777216;
  }

  /** The number of addresses of a block. */
  function BlockSize(len: PrefixLen): nat
    ensures 1 <= BlockSize(len) <= U32
  {
    Pow2Monotone(32 - len, 32);
    Pow2At32();
    Pow2(32 - len)
  }

  /** The network address: ip with its host bits cleared. */
  function Network(ip: Addr, len: PrefixLen): Addr {
    ip - ip % BlockSize(len)
  }

  function Broadcast(ip: Addr, len: PrefixLen): Addr
    ensures Broadcast(ip, len) == Network(ip, len) + BlockSize(len) - 1
  {
    BlockEndsInSpace(ip, len);
    Network(ip, len) + BlockSize(len) - 1
  }

  lemma {:induction false} Pow2Splits(m: nat, n: nat)
    ensures Pow2(m + n) == Pow2(m) * Pow2(n)
  {
    if m > 0 { Pow2Splits(m - 1, n); }
  }

  lemma DivMod(x: nat, d: nat)
    requires d > 0
    ensures x == (x / d) * d + x % d && 0 <= x % d < d
  {
  }

  lemma BlockEndsInSpace(ip: Addr, len: PrefixLen)
    ensures ip - ip % BlockSize(len) + BlockSize(len) <= U32
  {
    Pow2At32();
    Pow2Splits(len, 32 - len);
    hide Pow2;
    AlignedEnds(ip, Pow2(len), BlockSize(len));
  }

  lemma AlignedEnds(x: nat, n: nat, s: nat)
    requires s > 0 && x < n * s
    ensures x - x % s + s <= n * s
  {
    DivMod(x, s);
    LastMultiple(x / s, n, s, x % s);
  }

  lemma LastMultiple(q: nat, n: nat, s: nat, r: nat)
    requires q * s + r < n * s
    ensures q * s + s <= n * s
  {
    if q >= n {
      MulMonotone(n, q, s);
    } else {
      MulMonotone(q + 1, n, s);
    }
  }

  datatype Ivl = Ivl(lo: Addr, hi: Addr)

  function Size(g: Ivl): int { g.hi - g.lo + 1 }

  /** subnetUsableBounds: network+1 .. broadcast-1, in uint32 arithmetic. */
  function UsableBounds(c: Cidr): Option<Ivl> {
    if !c.V4? then None else
      var network, broadcast := Network(c.ip, c.len), Broadcast(c.ip, c.len);
      if broadcast < Wrap(network + 2) then None
      else Some(Ivl(Wrap(network + 1), Wrap(broadcast - 1)))
  }

  /** What pools may use: everything between the gateway and the broadcast address,
      as LayoutPools computes it. */
  function PoolWindow(c: Cidr): Option<Ivl> {
    match UsableBounds(c)
    case None => None
    case Some(u) => if Wrap(u.lo + 1) > u.hi then None else Some(Ivl(Wrap(u.lo + 1), u.hi))
  }

  /** network+2 passes the end of the address space. */
  predicate WrapsAround(c: Cidr) {
    c.V4? && Network(c.ip, c.len) + 2 >= U32
  }

  lemma PowSmall()
    ensures Pow2(0) == 1 && Pow2(1) == 2 && Pow2(2) == 4
  {
  }

  lemma LargeBlock(len: PrefixLen)
    requires len <= 30
    ensures BlockSize(len) >= 4
  {
    PowSmall();
    Pow2Monotone(2, 32 - len);
  }

  lemma SmallBlock(len: PrefixLen)
    requires len > 30
    ensures BlockSize(len) == if len == 31 then 2 else 1
  {
    PowSmall();
  }

  /** The pool window is exactly [network+2, broadcast-1], and exists exactly for
      blocks of four or more addresses, unless the block wraps around. */
  lemma PoolWindowExact(c: Cidr)
    requires c.V4? && !WrapsAround(c)
    ensures PoolWindow(c).Some? <==> c.len <= 30
    ensures PoolWindow(c).Some? ==>
              PoolWindow(c).value == Ivl(Network(c.ip, c.len) + 2, Broadcast(c.ip, c.len) - 1)
              && Size(PoolWindow(c).value) == BlockSize(c.len) - 3
  {
    hide Network, Broadcast, BlockSize, Wrap, Pow2;
    if c.len <= 30 { LargeBlock(c.len); } else { SmallBlock(c.len); }
    var network, broadcast := Network(c.ip, c.len), Broadcast(c.ip, c.len);
    WrapIsId(network + 1);
    if network + 2 < U32 { WrapIsId(network + 2); }
    if broadcast > 0 { WrapIsId(broadcast - 1); }
    if network + 2 <= broadcast { WrapIsId(network + 1 + 1); }
  }

  lemma WrapIsId(x: int)
    requires 0 <= x < U32
    ensures Wrap(x) == x
  {
  }

  /** Only 255.255.255.254/31, 255.255.255.254/32 and 255.255.255.255/32 wrap, and there
      the "window" is nearly the whole address space: it starts below the block itself. */
  lemma WrapsAroundExactly(c: Cidr)
    requires c.V4?
    ensures WrapsAround(c) <==> c.len >= 31 && c.ip >= U32 - 2
    ensures WrapsAround(c) ==> PoolWindow(c).Some? && PoolWindow(c).value.lo < Network(c.ip, c.len)
  {
    if c.len <= 30 {
      BlockEndsInSpace(c.ip, c.len);
      LargeBlock(c.len);
    } else {
      SmallBlock(c.len);
      assert c.len == 31 ==> Network(c.ip, c.len) == c.ip - c.ip % 2;
      assert c.len == 32 ==> Network(c.ip, c.len) == c.ip - c.ip % 1;
    }
  }

  /** The geometry of every block: its size halves with each bit of the mask down to one at
      /32, its network is a multiple of that size, and the address lies between the network
      and the broadcast address, which is the block's last. */
  lemma BlockExactly(ip: Addr, len: PrefixLen)
    ensures BlockSize(32) == 1 && (len < 32 ==> BlockSize(len) == 2 * BlockSize(len + 1))
    ensures var network, broadcast := Network(ip, len), Broadcast(ip, len);
            && network % BlockSize(len) == 0 && network <= ip <= broadcast && broadcast - network + 1 == BlockSize(len)
  {
    SmallBlock(32);
    if len < 32 { HalfTheBlock(len); }
    hide BlockSize, Network;
    NetworkAligned(ip, len);
  }

  lemma NetworkAligned(ip: Addr, len: PrefixLen)
    ensures Network(ip, len) % BlockSize(len) == 0 && Network(ip, len) <= ip < Network(ip, len) + BlockSize(len)
  {
    var n, q := Network(ip, len), ip / BlockSize(len);
    DivMod(ip, BlockSize(len));
    hide BlockSize, Network;
    ModUnique(n, q, 0, BlockSize(len));
  }

  lemma HalfTheBlock(len: PrefixLen)
    requires len < 32
    ensures BlockSize(len) == 2 * BlockSize(len + 1)
  {
  }

  lemma WrappedEnds(c: Cidr)
    requires WrapsAround(c)
    ensures c.len >= 31 && c.ip >= 0xffff_fffe
    ensures Network(c.ip, c.len) == if c.len == 31 then 0xffff_fffe else c.ip
    ensures Broadcast(c.ip, c.len) == if c.len == 31 then 0xffff_ffff else c.ip
  {
    WrapsAroundExactly(c);
    SmallBlock(c.len);
    hide BlockSize;
    assert c.ip % 1 == 0 && c.ip % 2 == c.ip - 0xffff_fffe;
  }

  lemma WrapValues()
    ensures Wrap(0x1_0000_0000) == 0 && Wrap(0x1_0000_0001) == 1 && Wrap(1) == 1
    ensures Wrap(0xffff_ffff) == 0xffff_ffff && Wrap(0xffff_fffe) == 0xffff_fffe && Wrap(0xffff_fffd) == 0xffff_fffd
  {
  }

  /** What the pool window of a wrapping block is. */
  lemma WrappedWindowExactly(c: Cidr)
    requires WrapsAround(c)
    ensures PoolWindow(c) == Some(if c.len == 31 then Ivl(0, 0xffff_fffe)
                                  else if c.ip == 0xffff_fffe then Ivl(0, 0xffff_fffd)
                                  else Ivl(1, 0xffff_fffe))
  {
    hide BlockSize, Network, Broadcast, Wrap, PoolWindow, UsableBounds;
    WrappedEnds(c);
    WrapValues();
    WindowFromEnds(c, Network(c.ip, c.len), Broadcast(c.ip, c.len));
  }

  lemma WindowFromEnds(c: Cidr, network: Addr, broadcast: Addr)
    requires c.V4? && Network(c.ip, c.len) == network && Broadcast(c.ip, c.len) == broadcast
    ensures var lo, hi := Wrap(Wrap(network + 1) + 1), Wrap(broadcast - 1);
            PoolWindow(c) == if broadcast < Wrap(network + 2) || lo > hi then None else Some(Ivl(lo, hi))
  {
    hide Network, Broadcast;
  }
}
