/** Aligned address blocks, the greedy cover of a range by such blocks (decnet/asn/lookup.py),
    and the tightest block around a list of addresses (decnet/network.py). */
module Cidr {
  import opened Common

  const BITS := 32
  const ALL_ONES := 0xFFFF_FFFF

  function Pow2(k: nat): (p: nat)
    ensures p > 0
  {
    if k == 0 then 1 else 2 * Pow2(k - 1)
  }

  /** The network with address `lo` and prefix length `32 - bits`. */
  datatype Block = Block(lo: nat, bits: nat) {
    function Size(): nat { Pow2(bits) }
    predicate Has(n: int) { lo <= n < lo + Size() }
    predicate Aligned() { bits <= BITS && lo % Size() == 0 }
    predicate Within(first: int, last: int) { first <= lo && lo + Size() - 1 <= last }
    predicate Covers(b: Block) { lo <= b.lo && b.lo + b.Size() <= lo + Size() }
  }

  // ---------- arithmetic ----------

  lemma MulStrict(p: int, a: int, b: int)
    requires p > 0 && p * a < p * b
    ensures a < b
  {
    if a >= b { MulMono(p, b, a); }
  }

  lemma MulMono(p: int, a: int, b: int)
    requires p > 0 && a <= b
    ensures p * a <= p * b
  {
    assert p * b == p * a + p * (b - a);
  }

  lemma MulAssociates(a: int, b: int, c: int)
    ensures (a * b) * c == a * (b * c)
  {
  }

  lemma MulDistributes(p: int, a: int, b: int)
    ensures p * (a + b) == p * a + p * b
  {
  }

  lemma DivModUnique(x: int, m: int, d: int, r: int)
    requires m > 0 && x == m * d + r && 0 <= r < m
    ensures x / m == d && x % m == r
  {
    var d', r' := x / m, x % m;
    assert x == m * d' + r';
    assert m * (d - d') == r' - r && m * (d' - d) == r - r';
    if d > d' { MulMono(m, 1, d - d'); }
    if d < d' { MulMono(m, 1, d' - d); }
  }

  lemma {:induction false} Pow2Add(i: nat, j: nat)
    ensures Pow2(i + j) == Pow2(i) * Pow2(j)
  {
    if j != 0 {
      Pow2Add(i, j - 1);
      assert Pow2(i) * (2 * Pow2(j - 1)) == 2 * (Pow2(i) * Pow2(j - 1));
    }
  }

  lemma {:induction false} Pow2Mono(i: nat, j: nat)
    requires i <= j
    ensures Pow2(i) <= Pow2(j)
  {
    if i < j { Pow2Mono(i, j - 1); }
  }

  lemma Pow2Of32()
    ensures Pow2(BITS) == ALL_ONES + 1
  {
    assert Pow2(8) == 256;
    Pow2Add(8, 8);
    Pow2Add(16, 16);
  }

  /** Halving commutes with dividing by a power of two. */
  lemma HalveFirst(a: nat, k: nat)
    ensures a / Pow2(k + 1) == (a / 2) / Pow2(k)
    ensures a % Pow2(k + 1) == 0 <==> a % 2 == 0 && (a / 2) % Pow2(k) == 0
  {
    var p, h := Pow2(k), a / 2;
    var d, r := h / p, h % p;
    assert a == 2 * h + a % 2 && h == p * d + r;
    assert a == (2 * p) * d + (2 * r + a % 2);
    DivModUnique(a, 2 * p, d, 2 * r + a % 2);
  }

  // ---------- nesting of aligned blocks ----------

  lemma AlignedMultiple(b: Block)
    requires b.Aligned()
    ensures b.lo == b.Size() * (b.lo / b.Size())
  {
  }

  /** Multiples of `p`: an interval of one step and one of `q` steps that share a point. */
  lemma NestedMultiples(p: int, q: int, x: int, z: int, n: int)
    requires p > 0
    requires p * x <= n < p * (x + 1) && p * z <= n < p * (z + q)
    ensures p * z <= p * x && p * (x + 1) <= p * (z + q)
  {
    MulStrict(p, z, x + 1);
    MulStrict(p, x, z + q);
    MulMono(p, z, x);
    MulMono(p, x + 1, z + q);
  }

  /** Two aligned blocks that share an address are nested. */
  lemma Nested(b: Block, c: Block, n: int)
    requires b.Aligned() && c.Aligned() && b.bits <= c.bits
    requires b.Has(n) && c.Has(n)
    ensures c.Covers(b)
  {
    var p, q := b.Size(), Pow2(c.bits - b.bits);
    var x, y := b.lo / p, c.lo / c.Size();
    Pow2Add(b.bits, c.bits - b.bits);
    AlignedMultiple(b);
    AlignedMultiple(c);
    var z := q * y;
    MulAssociates(p, q, y);
    MulDistributes(p, x, 1);
    MulDistributes(p, z, q);
    NestedMultiples(p, q, x, z, n);
  }

  // ---------- greedy cover of a range ----------

  /** How often two divides a positive number. */
  function TwosIn(n: nat): nat
    requires n > 0
  {
    if n % 2 == 1 then 0 else 1 + TwosIn(n / 2)
  }

  /** `int.bit_length`. */
  function BitLength(n: nat): nat {
    if n == 0 then 0 else 1 + BitLength(n / 2)
  }

  /** `_count_righthand_zero_bits` of the standard library. */
  function TrailingZeros(n: nat, bits: nat): nat {
    if n == 0 then bits else Min(bits, TwosIn(n))
  }

  lemma {:induction false} TwosInDivides(n: nat, k: nat)
    requires n > 0
    ensures n % Pow2(k) == 0 <==> k <= TwosIn(n)
    decreases k
  {
    if k > 0 {
      HalveFirst(n, k - 1);
      if n % 2 == 0 { TwosInDivides(n / 2, k - 1); }
    }
  }

  lemma {:induction false} BitLengthBounds(n: nat, k: nat)
    requires n > 0
    ensures Pow2(k) <= n <==> k < BitLength(n)
    decreases k
  {
    if k > 0 && n > 1 {
      BitLengthBounds(n / 2, k - 1);
    } else if k > 0 {
      Pow2Mono(1, k);
    }
  }

  /** The size `summarize_address_range` gives the block that starts at `first`. */
  function GreedyBits(first: nat, last: nat): nat
    requires first <= last <= ALL_ONES
  {
    Min(TrailingZeros(first, BITS), BitLength(last - first + 1) - 1)
  }

  /** That size is the largest for which an aligned block at `first` stays within the range. */
  lemma GreedyIsLargest(first: nat, last: nat, k: nat)
    requires first <= last <= ALL_ONES && k <= BITS
    ensures GreedyBits(first, last) <= BITS
    ensures Block(first, k).Aligned() && Block(first, k).Within(first, last) <==> k <= GreedyBits(first, last)
  {
    BitLengthBounds(last - first + 1, k);
    if first > 0 { TwosInDivides(first, k); }
  }

  /** Every aligned block of the range that reaches `first` or beyond starts there or later. */
  ghost predicate NoneStraddles(start: nat, end: nat, first: nat) {
    forall c: Block | c.Aligned() && c.Within(start, end) && c.lo + c.Size() > first :: c.lo >= first
  }

  ghost predicate Candidate(c: Block, start: nat, end: nat, n: nat) {
    c.Aligned() && c.Within(start, end) && c.Has(n)
  }

  lemma NoneStraddlesNext(start: nat, end: nat, b: Block)
    requires start <= b.lo <= end <= ALL_ONES && b.bits == GreedyBits(b.lo, end)
    requires NoneStraddles(start, end, b.lo)
    ensures NoneStraddles(start, end, b.lo + b.Size())
  {
    GreedyIsLargest(b.lo, end, b.bits);
    forall c: Block | c.Aligned() && c.Within(start, end) && c.lo + c.Size() > b.lo + b.Size()
      ensures c.lo >= b.lo + b.Size()
    {
      assert c.lo >= b.lo;
      if c.lo < b.lo + b.Size() {
        assert b.Has(c.lo) && c.Has(c.lo);
        if c.bits <= b.bits {
          Nested(c, b, c.lo);
        } else {
          Nested(b, c, c.lo);
          GreedyIsLargest(b.lo, end, c.bits);
        }
      }
    }
  }

  /** A greedy block that contains `n` covers every candidate for `n`. */
  lemma GreedyCoversCandidates(start: nat, end: nat, b: Block, n: nat)
    requires start <= b.lo <= end <= ALL_ONES && b.bits == GreedyBits(b.lo, end) && b.Has(n)
    requires NoneStraddles(start, end, b.lo)
    ensures Candidate(b, start, end, n)
    ensures forall c: Block | Candidate(c, start, end, n) :: b.Covers(c) && c.bits <= b.bits
  {
    GreedyIsLargest(b.lo, end, b.bits);
    forall c: Block | Candidate(c, start, end, n) ensures b.Covers(c) && c.bits <= b.bits {
      assert c.lo >= b.lo;
      if c.bits <= b.bits {
        Nested(c, b, n);
      } else {
        Nested(b, c, n);
        GreedyIsLargest(b.lo, end, c.bits);
      }
    }
  }

  /** `_synthesize_prefix`, with the standard library's generator loop written out. A range the
      library rejects, and an address outside the range, give `None`. */
  method SynthesizePrefix(start: int, end: int, queried: int) returns (r: Option<Block>)
    ensures r.Some? <==> 0 <= start <= queried <= end <= ALL_ONES
    ensures r.Some? ==> Largest(r.value, start, end, queried)
  {
    if start < 0 || start > ALL_ONES || end < 0 || end > ALL_ONES || start > end { return None; }
    var first: nat := start;
    while first <= end
      invariant start <= first <= end + 1
      invariant NoneStraddles(start, end, first)
      invariant start <= queried ==> first <= queried || end < queried
      decreases end + 1 - first
    {
      GreedyIsLargest(first, end, GreedyBits(first, end));
      var net := Block(first, GreedyBits(first, end));
      if queried >= net.lo && queried <= net.lo + net.Size() - 1 {
        GreedyCoversCandidates(start, end, net, queried);
        return Some(net);
      }
      NoneStraddlesNext(start, end, net);
      first := first + net.Size();
      if first - 1 == ALL_ONES { break; }
    }
    return None;
  }

  /** What `SynthesizePrefix` promises of its answer. */
  ghost predicate Largest(b: Block, start: nat, end: nat, n: nat) {
    Candidate(b, start, end, n) && forall c: Block | Candidate(c, start, end, n) :: b.Covers(c) && c.bits <= b.bits
  }

  /** What its documentation promises: no block of the range around `n` is smaller. */
  ghost predicate MostSpecific(b: Block, start: nat, end: nat, n: nat) {
    Candidate(b, start, end, n) && forall c: Block | Candidate(c, start, end, n) :: c.Covers(b)
  }

  /** The address that shares all but the last bit. */
  function Sibling(n: nat): nat {
    if n % 2 == 0 then n + 1 else n - 1
  }

  lemma AloneIffBits(b: Block, start: nat, end: nat, n: nat)
    requires Largest(b, start, end, n)
    ensures start <= Sibling(n) <= end <==> b.bits > 0
  {
    var pair := Block(if n % 2 == 0 then n else n - 1, 1);
    assert pair.Size() == 2 && pair.Aligned() && pair.Has(n);
    if start <= Sibling(n) <= end {
      assert Candidate(pair, start, end, n);
    }
    if b.bits > 0 {
      Nested(pair, b, n);
    }
  }

  /** The answer is the most specific block exactly when the range does not hold the sibling. */
  lemma MostSpecificIff(b: Block, start: nat, end: nat, n: nat)
    requires Largest(b, start, end, n)
    ensures MostSpecific(b, start, end, n) <==> !(start <= Sibling(n) <= end)
  {
    AloneIffBits(b, start, end, n);
    var single := Block(n, 0);
    assert Candidate(single, start, end, n) && single.Size() == 1;
    if b.bits > 0 {
      Pow2Mono(1, b.bits);
      assert !single.Covers(b);
    } else {
      forall c: Block | Candidate(c, start, end, n) ensures c.Covers(b) { Nested(b, c, n); }
    }
  }

  /** In a range of four addresses the answer for any of them is the whole range. */
  lemma FourAddresses(b: Block)
    requires Largest(b, 8, 11, 10)
    ensures b == Block(8, 2) && !MostSpecific(b, 8, 11, 10)
  {
    assert Block(8, 2).Size() == 4;
    assert Candidate(Block(8, 2), 8, 11, 10);
    assert Pow2(3) == 8;
    if b.bits > 2 { Pow2Mono(3, b.bits); }
    MostSpecificIff(b, 8, 11, 10);
  }

  // ---------- tightest block around addresses ----------

  /** Bitwise exclusive or. */
  function Xor(a: nat, b: nat): nat
    decreases a + b
  {
    if a == 0 && b == 0 then 0
    else (a % 2 + b % 2) % 2 + 2 * Xor(a / 2, b / 2)
  }

  lemma {:induction false} XorZero(a: nat, b: nat)
    ensures Xor(a, b) == 0 <==> a == b
    decreases a + b
  {
    if a != 0 || b != 0 { XorZero(a / 2, b / 2); }
  }

  lemma XorHalves(a: nat, b: nat)
    ensures Xor(a, b) / 2 == Xor(a / 2, b / 2)
  {
  }

  lemma AgreeHalves(a: nat, b: nat, k: nat)
    ensures a / Pow2(k + 1) == b / Pow2(k + 1) <==> (a / 2) / Pow2(k) == (b / 2) / Pow2(k)
  {
    HalveFirst(a, k);
    HalveFirst(b, k);
  }

  lemma BitLengthHalves(n: nat, k: nat)
    requires k > 0
    ensures BitLength(n) <= k <==> BitLength(n / 2) <= k - 1
  {
  }

  /** The bit length of the exclusive or says from which bit on two numbers agree. */
  lemma {:induction false} XorBitLength(a: nat, b: nat, k: nat)
    ensures BitLength(Xor(a, b)) <= k <==> a / Pow2(k) == b / Pow2(k)
    decreases k
  {
    if k == 0 {
      XorZero(a, b);
    } else {
      XorHalves(a, b);
      BitLengthHalves(Xor(a, b), k);
      XorBitLength(a / 2, b / 2, k - 1);
      AgreeHalves(a, b, k - 1);
    }
  }

  function Least(s: seq<nat>): (m: nat)
    requires s != []
    ensures m in s && forall x | x in s :: m <= x
  {
    if |s| == 1 then s[0] else
      var m := Least(s[1..]);
      assert forall x | x in s :: x == s[0] || x in s[1..];
      Min(s[0], m)
  }

  function Greatest(s: seq<nat>): (m: nat)
    requires s != []
    ensures m in s && forall x | x in s :: x <= m
  {
    if |s| == 1 then s[0] else
      var m := Greatest(s[1..]);
      assert forall x | x in s :: x == s[0] || x in s[1..];
      if s[0] > m then s[0] else m
  }

  /** The address with the bits below `p`, a power of two, cleared. */
  function Masked(n: nat, p: nat): nat
    requires p > 0
  {
    var d := n / p;
    MulMono(p, 0, d);
    p * d
  }

  /** `ips_to_range`; `None` stands for the error on an empty list. */
  function TightestNetwork(ips: seq<nat>): Option<Block>
    requires forall ip | ip in ips :: ip <= ALL_ONES
  {
    if ips == [] then None else
      var least, greatest := Least(ips), Greatest(ips);
      var bits := BitLength(Xor(greatest, least));
      Some(Block(Masked(least, Pow2(bits)), bits))
  }

  lemma BlockOf(n: nat, bits: nat, m: nat)
    ensures Block(Masked(n, Pow2(bits)), bits).Has(m) <==> m / Pow2(bits) == n / Pow2(bits)
    ensures Masked(n, Pow2(bits)) % Pow2(bits) == 0
  {
    var p := Pow2(bits);
    var d, e := n / p, m / p;
    assert m == p * e + m % p;
    DivModUnique(p * d, p, d, 0);
    MulDistributes(p, d, 1);
    MulDistributes(p, e, 1);
    if d < e { MulMono(p, d + 1, e); }
    if e < d { MulMono(p, e + 1, d); }
  }

  lemma DivMono(a: nat, b: nat, p: nat)
    requires p > 0 && a <= b
    ensures a / p <= b / p
  {
    var d, e := a / p, b / p;
    assert a == p * d + a % p && b == p * e + b % p;
    if d > e { MulMono(p, e + 1, d); }
  }

  lemma AlignedHas(c: Block, n: nat, m: nat)
    requires c.Aligned() && c.Has(n) && c.Has(m)
    ensures n / c.Size() == m / c.Size()
  {
    AlignedMultiple(c);
    DivModUnique(n, c.Size(), c.lo / c.Size(), n - c.lo);
    DivModUnique(m, c.Size(), c.lo / c.Size(), m - c.lo);
  }

  lemma HighBitsAgree(a: nat, b: nat)
    requires a <= ALL_ONES && b <= ALL_ONES
    ensures BitLength(Xor(a, b)) <= BITS
  {
    Pow2Of32();
    XorBitLength(a, b, BITS);
    DivModUnique(a, Pow2(BITS), 0, a);
    DivModUnique(b, Pow2(BITS), 0, b);
  }

  /** The computed network contains all the addresses, and every network that does contains it. */
  lemma TightestIsTightest(ips: seq<nat>)
    requires ips != [] && forall ip | ip in ips :: ip <= ALL_ONES
    ensures var net := TightestNetwork(ips).value;
            && net.Aligned()
            && (forall ip | ip in ips :: net.Has(ip))
            && (forall c: Block | c.Aligned() && (forall ip | ip in ips :: c.Has(ip)) :: c.Covers(net))
  {
    var least, greatest := Least(ips), Greatest(ips);
    var net := TightestNetwork(ips).value;
    var p := net.Size();
    HighBitsAgree(greatest, least);
    XorBitLength(greatest, least, net.bits);
    BlockOf(least, net.bits, least);
    forall ip | ip in ips ensures net.Has(ip) {
      DivMono(least, ip, p);
      DivMono(ip, greatest, p);
      BlockOf(least, net.bits, ip);
    }
    forall c: Block | c.Aligned() && forall ip | ip in ips :: c.Has(ip) ensures c.Covers(net) {
      assert c.Has(least) && c.Has(greatest);
      AlignedHas(c, greatest, least);
      XorBitLength(greatest, least, c.bits);
      Nested(net, c, least);
    }
  }
}
