/**
 * Receive-buffer headroom of the ICSSG driver.
 *
 * `PRUETH_HEADROOM_NA` is the larger of the XDP and the skb headroom
 * requirements plus the IP-alignment pad; `PRUETH_HEADROOM` rounds it up to
 * a multiple of `sizeof(long)` with the kernel `ALIGN` macro, which computes
 * `(x + a - 1) & ~(a - 1)` for a power-of-two `a`.
 *
 * `XDP_PACKET_HEADROOM`, `NET_SKB_PAD`, `NET_IP_ALIGN` and `sizeof(long)` are
 * defined by other kernel headers; they are parameters here, the word size
 * being only assumed to be a positive power of two.
 */
module Headroom {

  /** `n` is 1, 2, 4, 8, ... */
  predicate IsPow2(n: nat)
    decreases n
  {
    n == 1 || (n >= 2 && n % 2 == 0 && IsPow2(n / 2))
  }

  /** The kernel `max` of two sizes. */
  function Max(a: nat, b: nat): (m: nat)
    ensures a <= m && b <= m
    ensures m == a || m == b
  {
    if a >= b then a else b
  }

  /**
   * `v & ~(a - 1)` for a power of two `a`: the bitwise mask written out bit
   * by bit, clearing the low log2(a) bits of `v`.
   */
  function ClearLowBits(v: nat, a: nat): (r: nat)
    requires IsPow2(a)
    ensures r <= v && v - r < a
    decreases a
  {
    if a == 1 then v else 2 * ClearLowBits(v / 2, a / 2)
  }

  /**
   * The kernel `ALIGN(x, a)`: `(x + a - 1) & ~(a - 1)`, the round-up of `x`
   * to a multiple of `a`.
   */
  function Align(x: nat, a: nat): (r: nat)
    requires IsPow2(a)
    ensures r % a == 0
    ensures x <= r < x + a
  {
    var y := x + a - 1;
    ClearLowBitsRoundsDown(y, a);
    DivMod(y, a);
    DivModUnique(a * (y / a), a, y / a, 0);
    ClearLowBits(y, a)
  }

  /** `PRUETH_HEADROOM_NA`: room for both the XDP and the skb metadata, plus the IP pad. */
  function HeadroomNA(xdpPacketHeadroom: nat, netSkbPad: nat, netIpAlign: nat): (n: nat)
    ensures n >= xdpPacketHeadroom + netIpAlign && n >= netSkbPad + netIpAlign
    ensures n == xdpPacketHeadroom + netIpAlign || n == netSkbPad + netIpAlign
  {
    Max(xdpPacketHeadroom, netSkbPad) + netIpAlign
  }

  /**
   * `PRUETH_HEADROOM`: the smallest multiple of the word size that is at
   * least `PRUETH_HEADROOM_NA`.
   */
  function PruethHeadroom(xdpPacketHeadroom: nat, netSkbPad: nat, netIpAlign: nat, longSize: nat): (h: nat)
    requires IsPow2(longSize)
    ensures h % longSize == 0
    ensures HeadroomNA(xdpPacketHeadroom, netSkbPad, netIpAlign) <= h
    ensures h < HeadroomNA(xdpPacketHeadroom, netSkbPad, netIpAlign) + longSize
  {
    Align(HeadroomNA(xdpPacketHeadroom, netSkbPad, netIpAlign), longSize)
  }

  // ---------------------------------------------------------------------
  // Arithmetic helpers

  lemma DivModUnique(v: int, m: int, k: int, r: int)
    requires m > 0 && 0 <= r < m && v == m * k + r
    ensures v / m == k && v % m == r
  {
    var k2, r2 := v / m, v % m;
    assert v == m * k2 + r2;
    assert m * (k - k2) == r2 - r;
    if k > k2 {
      assert m * (k - k2) >= m * 1 by { MulMonotone(m, 1, k - k2); }
      assert false;
    } else if k < k2 {
      assert m * (k2 - k) >= m * 1 by { MulMonotone(m, 1, k2 - k); }
      assert false;
    }
  }

  lemma MulMonotone(m: int, a: int, b: int)
    requires m >= 0 && a <= b
    ensures m * a <= m * b
  {
    assert m * b - m * a == m * (b - a);
  }

  /** Splitting off the lowest bit: `v % 2h` from `(v / 2) % h` and `v % 2`. */
  lemma ModDouble(v: nat, h: nat)
    requires h >= 1
    ensures v % (2 * h) == 2 * ((v / 2) % h) + v % 2
  {
    var q := v / 2;
    var k, r := q / h, q % h;
    assert q == h * k + r;
    assert v == (2 * h) * k + (2 * r + v % 2);
    DivModUnique(v, 2 * h, k, 2 * r + v % 2);
  }

  // ---------------------------------------------------------------------
  // The mask is the arithmetic round-down

  /** Clearing the low bits of `v` rounds `v` down to a multiple of `a`. */
  lemma {:induction false} ClearLowBitsRoundsDown(v: nat, a: nat)
    requires IsPow2(a)
    ensures ClearLowBits(v, a) == v - v % a
    decreases a
  {
    if a != 1 {
      var h := a / 2;
      ClearLowBitsRoundsDown(v / 2, h);
      ModDouble(v, h);
      assert a == 2 * h;
    }
  }

  lemma DivMod(y: nat, a: nat)
    requires a > 0
    ensures y == a * (y / a) + y % a && 0 <= y % a < a
  {
  }

  /** No multiple of `a` that is at least `x` lies below `ALIGN(x, a)`. */
  lemma AlignIsLeast(x: nat, a: nat, m: nat)
    requires IsPow2(a)
    requires m % a == 0 && x <= m
    ensures Align(x, a) <= m
  {
    var r := Align(x, a);
    if m < r {
      MultiplesApart(a, m, r);
    }
  }

  /** Two distinct multiples of `a` are at least `a` apart. */
  lemma MultiplesApart(a: nat, m: nat, r: nat)
    requires a > 0 && m % a == 0 && r % a == 0 && m < r
    ensures m + a <= r
  {
    var q, k := r / a, m / a;
    DivMod(r, a);
    DivMod(m, a);
    assert r == a * q && m == a * k;
    if k >= q {
      MulMonotone(a, q, k);
      assert false;
    }
    assert a * (q - 1) == a * q - a;
    MulMonotone(a, k, q - 1);
  }

  /** Aligning an already aligned size leaves it unchanged. */
  lemma AlignIdempotent(x: nat, a: nat)
    requires IsPow2(a)
    ensures Align(Align(x, a), a) == Align(x, a)
  {
    var y := Align(x, a);
    AlignIsLeast(y, a, y);
  }

  /** `ALIGN` is monotone in its first argument. */
  lemma AlignMonotone(x: nat, y: nat, a: nat)
    requires IsPow2(a) && x <= y
    ensures Align(x, a) <= Align(y, a)
  {
    AlignIsLeast(x, a, Align(y, a));
  }

  // ---------------------------------------------------------------------
  // What the header promises of PRUETH_HEADROOM

  /**
   * One buffer layout serves both an skb and an xdp_frame: the headroom
   * covers either requirement with the IP pad on top.
   */
  lemma HeadroomServesSkbAndXdp(xdpPacketHeadroom: nat, netSkbPad: nat, netIpAlign: nat, longSize: nat)
    requires IsPow2(longSize)
    ensures PruethHeadroom(xdpPacketHeadroom, netSkbPad, netIpAlign, longSize) >= xdpPacketHeadroom + netIpAlign
    ensures PruethHeadroom(xdpPacketHeadroom, netSkbPad, netIpAlign, longSize) >= netSkbPad + netIpAlign
  {
  }

  /** `PRUETH_HEADROOM` is the smallest word-aligned size holding `PRUETH_HEADROOM_NA`. */
  lemma HeadroomIsSmallest(xdpPacketHeadroom: nat, netSkbPad: nat, netIpAlign: nat, longSize: nat, m: nat)
    requires IsPow2(longSize)
    requires m % longSize == 0 && HeadroomNA(xdpPacketHeadroom, netSkbPad, netIpAlign) <= m
    ensures PruethHeadroom(xdpPacketHeadroom, netSkbPad, netIpAlign, longSize) <= m
  {
    AlignIsLeast(HeadroomNA(xdpPacketHeadroom, netSkbPad, netIpAlign), longSize, m);
  }

  /** When the unaligned headroom is already word aligned, `ALIGN` adds nothing. */
  lemma HeadroomExactWhenAligned(xdpPacketHeadroom: nat, netSkbPad: nat, netIpAlign: nat, longSize: nat)
    requires IsPow2(longSize)
    requires HeadroomNA(xdpPacketHeadroom, netSkbPad, netIpAlign) % longSize == 0
    ensures PruethHeadroom(xdpPacketHeadroom, netSkbPad, netIpAlign, longSize)
         == HeadroomNA(xdpPacketHeadroom, netSkbPad, netIpAlign)
  {
    var na := HeadroomNA(xdpPacketHeadroom, netSkbPad, netIpAlign);
    AlignIsLeast(na, longSize, na);
  }
}
