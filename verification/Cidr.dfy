/** The IP allowlist test, in JavaScript's 32-bit arithmetic. */
module Cidr {
  import opened Division

  const TWO32 := 0x1_0000_0000

  // ---------------------------------------------------------------------
  // JavaScript operators.
  // ---------------------------------------------------------------------

  /** `n >>> 0` */
  function ToUint32(n: int): (u: int)
    ensures 0 <= u < TWO32
  {
    n % TWO32
  }

  function ToInt32(n: int): int {
    if ToUint32(n) >= TWO32 / 2 then ToUint32(n) - TWO32 else ToUint32(n)
  }

  /** `~n` */
  function Not(n: int): int {
    -ToInt32(n) - 1
  }

  /** `n << 8` */
  function Shl8(n: int): int {
    ToInt32(ToInt32(n) * 256)
  }

  /** The bits that the lowest `n` bits of `x` and `y` share. */
  function CommonBits(x: nat, y: nat, n: nat): nat {
    if n == 0 then 0 else x % 2 * (y % 2) + 2 * CommonBits(x / 2, y / 2, n - 1)
  }

  /** `a & b` */
  function And(a: int, b: int): int {
    ToInt32(CommonBits(ToUint32(a), ToUint32(b), 32))
  }

  function Pow2(n: nat): (p: nat)
    ensures p >= 1
  {
    if n == 0 then 1 else 2 * Pow2(n - 1)
  }

  // ---------------------------------------------------------------------
  // The test.
  // ---------------------------------------------------------------------

  type Octet = o: int | 0 <= o < 256

  datatype Ipv4 = Ipv4(a: Octet, b: Octet, c: Octet, d: Octet)

  datatype Entry = Exact(address: Ipv4) | Block(range: Ipv4, bits: nat)

  predicate ValidEntry(e: Entry) {
    e.Block? ==> e.bits <= 32
  }

  function Fold(octets: seq<Octet>, acc: int): int {
    if octets == [] then acc else Fold(octets[1..], Shl8(acc) + octets[0])
  }

  function IpToNum(ip: Ipv4): int {
    ToUint32(Fold([ip.a, ip.b, ip.c, ip.d], 0))
  }

  function Mask(bits: nat): int
    requires bits <= 32
  {
    Not(Pow2(32 - bits) - 1)
  }

  /** `(x & mask) === (y & mask)` */
  predicate SameMasked(x: int, y: int, mask: int) {
    And(x, mask) == And(y, mask)
  }

  predicate IpInCidr(ip: Ipv4, range: Ipv4, bits: nat)
    requires bits <= 32
  {
    SameMasked(IpToNum(ip), IpToNum(range), Mask(bits))
  }

  // ---------------------------------------------------------------------
  // What it means.
  // ---------------------------------------------------------------------

  /** The address as a 32-bit number. */
  function Value(ip: Ipv4): (v: int)
    ensures 0 <= v < TWO32
  {
    ((ip.a * 256 + ip.b) as int * 256 + ip.c) * 256 + ip.d
  }

  /** The same network: the leading `bits` bits agree. */
  predicate SameBlock(x: int, y: int, bits: nat)
    requires bits <= 32
  {
    x / Pow2(32 - bits) == y / Pow2(32 - bits)
  }

  /** Signed shifts and all, the fold computes the address number. */
  lemma IpToNumIsValue(ip: Ipv4)
    ensures IpToNum(ip) == Value(ip)
  {
    FoldOfFour(ip.a, ip.b, ip.c, ip.d);
    ShiftsAddUp(ip.a, ip.b, ip.c, ip.d);
  }

  lemma ShiftsAddUp(a: int, b: int, c: int, d: int)
    requires 0 <= a < 256 && 0 <= b < 256 && 0 <= c < 256 && 0 <= d < 256
    ensures ToUint32(Shl8(Shl8(Shl8(Shl8(0) + a) + b) + c) + d) == ((a * 256 + b) * 256 + c) * 256 + d
  {
    SmallShift(0);
    SmallShift(a);
    SmallShift(a * 256 + b);
    LastShift((a * 256 + b) * 256 + c, d);
  }

  lemma FoldOfFour(a: Octet, b: Octet, c: Octet, d: Octet)
    ensures Fold([a, b, c, d], 0) == Shl8(Shl8(Shl8(Shl8(0) + a) + b) + c) + d
  {
    var acc1 := Shl8(0) + a;
    var acc2 := Shl8(acc1) + b;
    var acc3 := Shl8(acc2) + c;
    var octets: seq<Octet> := [a, b, c, d];
    assert octets[1..] == [b, c, d] && [b, c, d][1..] == [c, d] && [c, d][1..] == [d] && [d][1..] == [];
    assert Fold([d], acc3) == Shl8(acc3) + d;
    assert Fold([c, d], acc2) == Fold([d], acc3);
    assert Fold([b, c, d], acc1) == Fold([c, d], acc2);
  }

  /** Up to 23 bits a shift by a byte does not reach the sign bit. */
  lemma SmallShift(v: int)
    requires 0 <= v < 0x80_0000
    ensures Shl8(v) == v * 256
  {
    assert ToInt32(v) == v;
  }

  lemma LastShift(v: int, d: int)
    requires 0 <= v < 0x100_0000 && 0 <= d < 256
    ensures ToUint32(Shl8(v) + d) == v * 256 + d
  {
    assert ToInt32(v) == v;
    if v * 256 >= TWO32 / 2 {
      assert Shl8(v) == v * 256 - TWO32;
      assert (v * 256 + d - TWO32) % TWO32 == v * 256 + d;
    }
  }

  lemma Pow2Values()
    ensures Pow2(8) == 256 && Pow2(16) == 65536 && Pow2(24) == 0x100_0000 && Pow2(32) == TWO32
  {
    assert Pow2(4) == 16;
    assert Pow2(8) == 256;
    assert Pow2(12) == 4096;
    assert Pow2(16) == 65536;
    assert Pow2(20) == 0x10_0000;
    assert Pow2(24) == 0x100_0000;
    assert Pow2(28) == 0x1000_0000;
  }

  lemma {:induction false} Pow2Monotone(k: nat, n: nat)
    requires k <= n
    ensures Pow2(k) <= Pow2(n)
  {
    if k < n { Pow2Monotone(k, n - 1); }
  }

  /** As an unsigned word the mask is ones above the host bits, the overflows at 0 and 32 included. */
  lemma MaskBits(bits: nat)
    requires bits <= 32
    ensures ToUint32(Mask(bits)) == Pow2(32) - Pow2(32 - bits)
  {
    Pow2Values();
    Pow2Monotone(32 - bits, 32);
    var p := Pow2(32 - bits);
    if bits > 0 {
      Pow2Monotone(32 - bits, 31);
      assert Pow2(32) == 2 * Pow2(31);
    }
    NotWord(p);
  }

  lemma NotWord(p: int)
    requires 1 <= p <= TWO32 / 2 || p == TWO32
    ensures ToUint32(Not(p - 1)) == TWO32 - p
  {
    if p == TWO32 {
      assert Not(p - 1) == 0;
    } else {
      assert Not(p - 1) == -p;
      assert (TWO32 - p) % TWO32 == TWO32 - p;
    }
  }

  lemma HalfTwice(x: nat, p: nat)
    requires p >= 1
    ensures x / 2 / p == x / (2 * p)
  {
    var q, r := x / 2 / p, x / 2 % p;
    assert x / 2 == q * p + r;
    assert x == q * (2 * p) + (2 * r + x % 2);
    Quotient(x, 2 * p, q, 2 * r + x % 2);
  }

  lemma {:induction false} OnesKeepAll(x: nat, n: nat)
    requires x < Pow2(n)
    ensures CommonBits(x, Pow2(n) - 1, n) == x
    decreases n
  {
    if n > 0 {
      OnesKeepAll(x / 2, n - 1);
      assert (Pow2(n) - 1) % 2 == 1 && (Pow2(n) - 1) / 2 == Pow2(n - 1) - 1;
    }
  }

  lemma CommonBitsEven(x: nat, half: nat, n: nat)
    requires n > 0
    ensures CommonBits(x, 2 * half, n) == 2 * CommonBits(x / 2, half, n - 1)
  {
    assert 2 * half % 2 == 0 && 2 * half / 2 == half;
  }

  /** `x` with the bits below the power of two `p` cleared. */
  function Cleared(x: nat, p: nat): nat
    requires p >= 1
  {
    x / p * p
  }

  /** Masking clears the low `k` bits. */
  lemma {:induction false} MaskClearsLowBits(x: nat, k: nat, n: nat)
    requires k <= n && x < Pow2(n)
    ensures Pow2(k) <= Pow2(n)
    ensures CommonBits(x, Pow2(n) - Pow2(k), n) == Cleared(x, Pow2(k))
    decreases n
  {
    Pow2Monotone(k, n);
    if k == 0 {
      OnesKeepAll(x, n);
    } else {
      var p, half := Pow2(k - 1), Pow2(n - 1) - Pow2(k - 1);
      MaskClearsLowBits(x / 2, k - 1, n - 1);
      assert Pow2(k) == 2 * p && Pow2(n) - Pow2(k) == 2 * half;
      ClearOneMore(x, p, half, n);
    }
  }

  lemma ClearOneMore(x: nat, p: nat, half: nat, n: nat)
    requires p >= 1 && n > 0 && CommonBits(x / 2, half, n - 1) == Cleared(x / 2, p)
    ensures CommonBits(x, 2 * half, n) == Cleared(x, 2 * p)
  {
    CommonBitsEven(x, half, n);
    HalfTwice(x, p);
    Twice(x / 2 / p, p);
  }

  lemma Twice(q: int, p: int)
    ensures 2 * (q * p) == q * (2 * p)
  {
  }

  /** Any 32-bit number, masked. */
  lemma MaskedNumber(x: int, bits: nat)
    requires 0 <= x < TWO32 && bits <= 32
    ensures And(x, Mask(bits)) == ToInt32(Cleared(x, Pow2(32 - bits)))
  {
    MaskBits(bits);
    assert Pow2(32) == TWO32 by { Pow2Values(); }
    Masked(x, Mask(bits), 32 - bits);
  }

  lemma Masked(x: int, mask: int, k: nat)
    requires 0 <= x < Pow2(32) && k <= 32 && Pow2(32) == TWO32
    requires ToUint32(mask) == Pow2(32) - Pow2(k)
    ensures And(x, mask) == ToInt32(Cleared(x, Pow2(k)))
  {
    MaskClearsLowBits(x, k, 32);
    AndOfWord(x, mask);
  }

  lemma AndOfWord(x: int, mask: int)
    requires 0 <= x < TWO32
    ensures And(x, mask) == ToInt32(CommonBits(x, ToUint32(mask), 32))
  {
    assert ToUint32(x) == x;
  }

  lemma ToInt32IsInjective(x: int, y: int)
    requires 0 <= x < TWO32 && 0 <= y < TWO32 && ToInt32(x) == ToInt32(y)
    ensures x == y
  {
  }

  /** The 32-bit mask test holds exactly when the leading bits agree, for every prefix length 0 to 32. */
  lemma MaskTestIff(x: int, y: int, bits: nat)
    requires 0 <= x < TWO32 && 0 <= y < TWO32 && bits <= 32
    ensures SameMasked(x, y, Mask(bits)) <==> SameBlock(x, y, bits)
  {
    var p := Pow2(32 - bits);
    MaskedNumber(x, bits);
    MaskedNumber(y, bits);
    ClearedBelow(x, p);
    ClearedBelow(y, p);
    if SameMasked(x, y, Mask(bits)) { ToInt32IsInjective(Cleared(x, p), Cleared(y, p)); }
    SameMultiple(x / p, y / p, p);
  }

  lemma IpInCidrIff(ip: Ipv4, range: Ipv4, bits: nat)
    requires bits <= 32
    ensures IpInCidr(ip, range, bits) <==> SameBlock(Value(ip), Value(range), bits)
  {
    IpToNumIsValue(ip);
    IpToNumIsValue(range);
    MaskTestIff(Value(ip), Value(range), bits);
  }

  lemma ClearedBelow(v: int, p: int)
    requires 0 <= v < TWO32 && p >= 1
    ensures 0 <= Cleared(v, p) <= v
  {
  }

  lemma SameMultiple(x: int, y: int, p: int)
    requires p >= 1
    ensures x * p == y * p <==> x == y
  {
    MultipleIsFar(x - y, p);
    assert (x - y) * p == x * p - y * p;
  }

  // ---------------------------------------------------------------------
  // Blocks, and the allowlist.
  // ---------------------------------------------------------------------

  lemma {:induction false} CoarserBlock(x: nat, y: nat, k: nat, more: nat)
    requires x / Pow2(k) == y / Pow2(k)
    ensures x / Pow2(k + more) == y / Pow2(k + more)
    decreases more
  {
    if more > 0 {
      CoarserBlock(x, y, k, more - 1);
      var p := Pow2(k + more - 1);
      TwiceHalf(x, p);
      TwiceHalf(y, p);
      assert Pow2(k + more) == 2 * p;
    }
  }

  lemma TwiceHalf(x: nat, p: nat)
    requires p >= 1
    ensures x / p / 2 == x / (2 * p)
  {
    var q, r := x / p, x % p;
    assert x == q * p + r;
    var h, l := q / 2, q % 2;
    assert q == 2 * h + l;
    assert q * p == h * (2 * p) + l * p;
    assert l * p <= p;
    Quotient(x, 2 * p, h, l * p + r);
  }

  /** Two blocks are nested or disjoint: if they share an address, the one with the longer prefix lies in the other. */
  lemma BlocksNestOrAreDisjoint(outer: Ipv4, few: nat, inner: Ipv4, many: nat, shared: Ipv4, ip: Ipv4)
    requires few <= many <= 32
    requires IpInCidr(shared, outer, few) && IpInCidr(shared, inner, many)
    requires IpInCidr(ip, inner, many)
    ensures IpInCidr(ip, outer, few)
  {
    IpInCidrIff(shared, outer, few);
    IpInCidrIff(shared, inner, many);
    IpInCidrIff(ip, inner, many);
    IpInCidrIff(ip, outer, few);
    CoarserBlock(Value(ip), Value(shared), 32 - many, many - few);
  }

  predicate EntryCovers(e: Entry, ip: Ipv4)
    requires ValidEntry(e)
  {
    match e
    case Exact(address) => address == ip
    case Block(range, bits) => SameBlock(Value(ip), Value(range), bits)
  }
}
