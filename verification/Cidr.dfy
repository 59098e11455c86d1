/** CIDR blocks, pools and network validation (model.rs). */
module Cidr {
  import opened Arith
  import opened Base

  /** Bitwise and of two naturals. */
  function And(x: nat, y: nat): nat
  {
    if x == 0 || y == 0 then 0 else 2 * And(x / 2, y / 2) + (x % 2) * (y % 2)
  }

  function Pow2(n: nat): (p: nat)
    ensures p > 0
  {
    if n == 0 then 1 else 2 * Pow2(n - 1)
  }

  /** Shift left within 32 bits. */
  function Shl32(x: u32, n: nat): u32
  {
    x * Pow2(n) % 0x1_0000_0000
  }

  type Prefix = n: int | 0 <= n <= 32

  /** The network mask of a prefix; a zero prefix is special-cased to avoid a full-width shift. */
  function Mask(prefix: Prefix): u32
  {
    if prefix == 0 then 0 else Shl32(U32_MAX, 32 - prefix)
  }

  datatype Block = Block(addr: Ip, prefix: Prefix)

  datatype Pool = Pool(start: Ip, end: Ip)

  datatype Network = Network(name: string, cidr: Block, gateway: Ip, pool: Pool)

  datatype ModelError = EmptyName | InvalidCidr | InvalidGateway | InvalidPool

  /** Membership as the source tests it: masked address equals the block's address. */
  predicate InBlock(ip: Ip, b: Block)
  {
    And(ip, Mask(b.prefix)) == b.addr
  }

  /** The Unicode White_Space characters that trimming removes. */
  predicate IsSpace(c: char)
  {
    var n := c as int;
    9 <= n <= 13 || n == 0x20 || n == 0x85 || n == 0xa0 || n == 0x1680 || 0x2000 <= n <= 0x200a
    || n == 0x2028 || n == 0x2029 || n == 0x202f || n == 0x205f || n == 0x3000
  }

  predicate IsBlank(s: string)
  {
    forall i :: 0 <= i < |s| ==> IsSpace(s[i])
  }

  /** Parsing keeps only prefixes up to 32 and addresses without host bits. */
  function NewBlock(addr: Ip, prefix: byte): Result<Block, ModelError>
  {
    if prefix > 32 then Err(InvalidCidr)
    else if And(addr, Mask(prefix)) != addr then Err(InvalidCidr)
    else Ok(Block(addr, prefix))
  }

  function NewPool(start: Ip, end: Ip): Result<Pool, ModelError>
  {
    if start > end then Err(InvalidPool) else Ok(Pool(start, end))
  }

  function NewNetwork(name: string, addr: Ip, prefix: byte, gateway: Ip, pool: Pool): Result<Network, ModelError>
  {
    if IsBlank(name) then Err(EmptyName)
    else
      match NewBlock(addr, prefix)
      case Err(e) => Err(e)
      case Ok(cidr) =>
        if !InBlock(gateway, cidr) then Err(InvalidGateway)
        else if !InBlock(pool.start, cidr) || !InBlock(pool.end, cidr) then Err(InvalidPool)
        else if pool.start <= gateway <= pool.end then Err(InvalidPool)
        else Ok(Network(name, cidr, gateway, pool))
  }

  // ---- what masking means -----------------------------------------------------------

  lemma {:induction false} Pow2Splits(a: nat, b: nat)
    ensures Pow2(a + b) == Pow2(a) * Pow2(b)
  {
    if a > 0 {
      Pow2Splits(a - 1, b);
      assert Pow2(a + b) == 2 * Pow2((a - 1) + b);
    }
  }

  /** The mask of `prefix` ones is 2^32 - 2^(32 - prefix). */
  lemma MaskValue(prefix: Prefix)
    ensures Mask(prefix) == 0x1_0000_0000 - Pow2(32 - prefix)
  {
    assert Pow2(32) == 0x1_0000_0000 by { Pow2Of32(); }
    if prefix > 0 {
      var p := Pow2(32 - prefix);
      Pow2Splits(prefix, 32 - prefix);
      Pow2Positive(prefix);
      assert p * 2 <= 0x1_0000_0000 by { MulMonotone(2, Pow2(prefix), p); }
      assert 0xffff_ffff * p == 0x1_0000_0000 * (p - 1) + (0x1_0000_0000 - p);
      ModUnique(0xffff_ffff * p, 0x1_0000_0000, p - 1, 0x1_0000_0000 - p);
    }
  }

  lemma Pow2Of32()
    ensures Pow2(32) == 0x1_0000_0000
  {
    assert Pow2(8) == 256;
    Pow2Splits(8, 8);
    Pow2Splits(16, 16);
  }

  lemma Pow2Positive(n: nat)
    requires n > 0
    ensures Pow2(n) >= 2
  {}

  /** And with `n` ones over `k` zeros clears the low `k` bits of any `n + k`-bit number. */
  lemma {:induction false} AndClearsLow(x: nat, n: nat, k: nat, m: nat)
    requires x < Pow2(n + k) && m == Pow2(n + k) - Pow2(k)
    ensures And(x, m) == x - x % Pow2(k)
    decreases n + k
  {
    if k > 0 {
      var h := Pow2(n + k - 1);
      AndClearsLow(x / 2, n, k - 1, m / 2);
      assert m % 2 == 0 && m / 2 == h - Pow2(k - 1);
      HalfMod(x, Pow2(k - 1));
      if x == 0 || m == 0 {
        AndZero(x, m, n, k);
      }
    } else {
      AndAllOnes(x, n);
    }
  }

  lemma AndZero(x: nat, m: nat, n: nat, k: nat)
    requires x < Pow2(n + k) && m == Pow2(n + k) - Pow2(k) && (x == 0 || m == 0)
    ensures x - x % Pow2(k) == 0
  {
    if m == 0 {
      assert x < Pow2(k);
      ModUnique(x, Pow2(k), 0, x);
    }
  }

  /** Clearing the low bits of a number clears them in its half. */
  lemma HalfMod(x: nat, h: nat)
    requires h > 0
    ensures x - x % (2 * h) == 2 * (x / 2 - (x / 2) % h)
  {
    var q, r := (x / 2) / h, (x / 2) % h;
    assert x / 2 == h * q + r;
    assert x == 2 * h * q + (2 * r + x % 2) by {
      assert 2 * (h * q) == 2 * h * q;
    }
    ModUnique(x, 2 * h, q, 2 * r + x % 2);
  }

  lemma {:induction false} AndAllOnes(x: nat, n: nat)
    requires x < Pow2(n)
    ensures And(x, Pow2(n) - 1) == x
  {
    if x > 0 {
      assert n > 0 && (Pow2(n) - 1) / 2 == Pow2(n - 1) - 1 && (Pow2(n) - 1) % 2 == 1;
      AndAllOnes(x / 2, n - 1);
    }
  }

  /** Masking an address clears exactly its host part. */
  lemma MaskClearsHost(ip: Ip, prefix: Prefix)
    ensures And(ip, Mask(prefix)) == ip - ip % Pow2(32 - prefix)
  {
    Pow2Of32();
    MaskValue(prefix);
    AndClearsLow(ip, prefix, 32 - prefix, Mask(prefix));
  }

  /** The Unicode White_Space code points. */
  const WHITE_SPACE: set<int> := {
    0x09, 0x0a, 0x0b, 0x0c, 0x0d, 0x20, 0x85, 0xa0, 0x1680,
    0x2000, 0x2001, 0x2002, 0x2003, 0x2004, 0x2005, 0x2006, 0x2007, 0x2008, 0x2009, 0x200a,
    0x2028, 0x2029, 0x202f, 0x205f, 0x3000}

  /** A name is blank iff every character of it is white space; the empty one is. */
  lemma BlankMeans(s: string)
    ensures IsBlank(s) <==> forall c :: c in s ==> c as int in WHITE_SPACE
  {
    forall i | 0 <= i < |s| ensures IsSpace(s[i]) <==> s[i] as int in WHITE_SPACE { SpaceIff(s[i]); }
    assert forall i :: 0 <= i < |s| ==> s[i] in s;
    if IsBlank(s) {
      forall c | c in s ensures c as int in WHITE_SPACE {
        var i :| 0 <= i < |s| && s[i] == c;
        assert IsSpace(s[i]);
      }
    }
  }

  lemma SpaceIff(c: char)
    ensures IsSpace(c) <==> c as int in WHITE_SPACE
  {}

  /** A block without host bits is the run of 2^(32 - prefix) addresses from its own. */
  lemma BlockIsRange(b: Block, ip: Ip)
    requires InBlock(b.addr, b)
    ensures InBlock(ip, b) <==> b.addr <= ip < b.addr + Pow2(32 - b.prefix)
  {
    MaskClearsHost(b.addr, b.prefix);
    MaskClearsHost(ip, b.prefix);
    RoundsDownTo(b.addr, ip, Pow2(32 - b.prefix));
  }

  lemma RoundsDownTo(addr: nat, x: nat, p: nat)
    requires p > 0 && addr % p == 0
    ensures x - x % p == addr <==> addr <= x < addr + p
  {
    assert addr == p * (addr / p);
    if addr <= x < addr + p {
      ModUnique(x, p, addr / p, x - addr);
    }
  }

  /** A block is an interval: everything between two members is a member. */
  lemma BlockIsConvex(b: Block, lo: Ip, ip: Ip, hi: Ip)
    requires InBlock(lo, b) && InBlock(hi, b) && lo <= ip <= hi
    ensures InBlock(ip, b)
  {
    MaskClearsHost(lo, b.prefix);
    MaskClearsHost(ip, b.prefix);
    MaskClearsHost(hi, b.prefix);
    RoundingIsConvex(lo, ip, hi, Pow2(32 - b.prefix));
  }

  lemma RoundingIsConvex(lo: nat, x: nat, hi: nat, p: nat)
    requires p > 0 && lo <= x <= hi && lo - lo % p == hi - hi % p
    ensures x - x % p == lo - lo % p
  {
    ModUnique(x, p, lo / p, x - (lo - lo % p));
  }

  /**
    What an accepted network guarantees: a non-blank name, an ordered pool lying wholly
    inside the block, and a gateway inside the block but outside the pool.
   */
  ghost predicate WellFormed(net: Network)
  {
    && !IsBlank(net.name)
    && InBlock(net.cidr.addr, net.cidr)
    && InBlock(net.gateway, net.cidr)
    && net.pool.start <= net.pool.end
    && (forall ip: Ip :: net.pool.start <= ip <= net.pool.end ==> InBlock(ip, net.cidr) && ip != net.gateway)
  }

  /** Only the endpoints of the pool are checked, yet acceptance is exactly well-formedness. */
  lemma AcceptedIffWellFormed(name: string, addr: Ip, prefix: byte, gateway: Ip, pool: Pool)
    requires pool.start <= pool.end
    ensures NewNetwork(name, addr, prefix, gateway, pool).Ok?
      <==> prefix <= 32 && WellFormed(Network(name, Block(addr, prefix), gateway, pool))
    ensures NewNetwork(name, addr, prefix, gateway, pool).Ok?
      ==> NewNetwork(name, addr, prefix, gateway, pool).value == Network(name, Block(addr, prefix), gateway, pool)
  {
    if NewNetwork(name, addr, prefix, gateway, pool).Ok? {
      forall ip: Ip | pool.start <= ip <= pool.end ensures InBlock(ip, Block(addr, prefix)) {
        BlockIsConvex(Block(addr, prefix), pool.start, ip, pool.end);
      }
    }
  }
}
