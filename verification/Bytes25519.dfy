/** Field elements as 32 little-endian bytes. */
module Bytes25519 {
  import Zp
  import opened Common
  import opened Arithmetic
  import opened Field25519

  /** The integer a byte string encodes, least significant byte first. */
  ghost function LittleEndian(b: seq<uint8>): nat {
    if b == [] then 0 else b[0] as int + 256 * LittleEndian(b[1..])
  }

  // ----- reading

  /** t lists the values of the suffixes of b. */
  ghost predicate AreTails(t: seq<int>, b: seq<uint8>) {
    && |t| == |b| + 1
    && t[|b|] == 0
    && (forall i {:trigger TailFrom(t, i)} :: 0 <= i < |b| ==> TailFrom(t, i) == b[i] as int + 256 * t[i + 1])
  }

  ghost function TailFrom(t: seq<int>, i: nat): int
    requires i < |t|
  {
    t[i]
  }

  lemma Tails(b: seq<uint8>) returns (t: seq<int>)
    ensures AreTails(t, b) && t[0] == LittleEndian(b)
  {
    if b == [] {
      t := [0];
    } else {
      var rest := Tails(b[1..]);
      t := [LittleEndian(b)] + rest;
      forall i | 0 < i < |b|
        ensures TailFrom(t, i) == b[i] as int + 256 * t[i + 1]
      {
        assert TailFrom(rest, i - 1) == TailFrom(t, i);
      }
    }
  }

  /** load_3: the low 24 bits of the suffix at i.  The shifted bytes have no bit in common, so | adds. */
  method Load3(b: seq<uint8>, i: nat, ghost t: seq<int>) returns (r: int64)
    requires i + 3 <= |b| && AreTails(t, b)
    ensures t[i] == r as int + 0x100_0000 * t[i + 3]
    ensures 0 <= r < 0x100_0000
  {
    r := b[i] as int64 + b[i + 1] as int64 * 0x100 + b[i + 2] as int64 * 0x1_0000;
    assert TailFrom(t, i) == t[i] && TailFrom(t, i + 1) == t[i + 1] && TailFrom(t, i + 2) == t[i + 2];
  }

  /** load_4: the low 32 bits of the suffix at i. */
  method Load4(b: seq<uint8>, i: nat, ghost t: seq<int>) returns (r: int64)
    requires i + 4 <= |b| && AreTails(t, b)
    ensures t[i] == r as int + 0x1_0000_0000 * t[i + 4]
    ensures 0 <= r < 0x1_0000_0000
  {
    var r3 := Load3(b, i, t);
    r := r3 + b[i + 3] as int64 * 0x100_0000;
    assert TailFrom(t, i + 3) == t[i + 3];
  }

  /** Ten words, each followed by the tail t_i, and the weights they have in all. */
  lemma Nested(w0: int, w1: int, w2: int, w3: int, w4: int, w5: int, w6: int, w7: int, w8: int, w9: int,
               t1: int, t2: int, t3: int, t4: int, t5: int, t6: int, t7: int, t8: int, v: int)
    requires v == w0 + 0x1_0000_0000 * t1
    requires t1 == w1 + 0x100_0000 * t2 && t2 == w2 + 0x100_0000 * t3 && t3 == w3 + 0x100_0000 * t4
    requires t4 == w4 + 0x100_0000 * t5 && t5 == w5 + 0x1_0000_0000 * t6 && t6 == w6 + 0x100_0000 * t7
    requires t7 == w7 + 0x100_0000 * t8 && t8 == w8 + 0x100_0000 * w9
    ensures v == Weigh(w0, 0x40 * w1, 0x20 * w2, 8 * w3, 4 * w4, w5, 0x80 * w6, 0x20 * w7, 0x10 * w8, 4 * w9)
  {
  }

  /** Clearing the top bit of the last word is reduction modulo 2^255. */
  lemma TopBitDropped(h0: int, h1: int, h2: int, h3: int, h4: int, h5: int, h6: int, h7: int, h8: int, w9: int)
    requires 0 <= h0 < 0x1_0000_0000 && 0 <= h1 <= 0x3fff_ffc0 && 0 <= h2 <= 0x1fff_ffe0 && 0 <= h3 <= 0x7ff_fff8
    requires 0 <= h4 <= 0x3ff_fffc && 0 <= h5 < 0x1_0000_0000 && 0 <= h6 <= 0x7fff_ff80 && 0 <= h7 <= 0x1fff_ffe0
    requires 0 <= h8 <= 0xfff_fff0 && 0 <= w9 < 0x100_0000
    ensures Weigh(h0, h1, h2, h3, h4, h5, h6, h7, h8, 4 * w9) % TWO255
         == Weigh(h0, h1, h2, h3, h4, h5, h6, h7, h8, w9 % 0x80_0000 * 4)
  {
    var low := Weigh(h0, h1, h2, h3, h4, h5, h6, h7, h8, w9 % 0x80_0000 * 4);
    assert 0 <= low < TWO255;
    Remainder(Weigh(h0, h1, h2, h3, h4, h5, h6, h7, h8, 4 * w9), w9 / 0x80_0000, low);
  }

  lemma Remainder(x: int, q: int, r: int)
    requires x == TWO255 * q + r && 0 <= r < TWO255
    ensures x % TWO255 == r && x / TWO255 == q
  {
  }

  /** The loads of fe_frombytes. */
  method ReadWords(s: seq<uint8>) returns (w0: int64, w1: int64, w2: int64, w3: int64, w4: int64,
                                           w5: int64, w6: int64, w7: int64, w8: int64, w9: int64)
    requires |s| == 32
    ensures 0 <= w0 < 0x1_0000_0000 && 0 <= w5 < 0x1_0000_0000
    ensures 0 <= w1 < 0x100_0000 && 0 <= w2 < 0x100_0000 && 0 <= w3 < 0x100_0000 && 0 <= w4 < 0x100_0000
    ensures 0 <= w6 < 0x100_0000 && 0 <= w7 < 0x100_0000 && 0 <= w8 < 0x100_0000 && 0 <= w9 < 0x100_0000
    ensures LittleEndian(s)
         == Weigh(w0 as int, 0x40 * w1 as int, 0x20 * w2 as int, 8 * w3 as int, 4 * w4 as int,
                  w5 as int, 0x80 * w6 as int, 0x20 * w7 as int, 0x10 * w8 as int, 4 * w9 as int)
  {
    ghost var t := Tails(s);
    w0 := Load4(s, 0, t);
    w1 := Load3(s, 4, t);
    w2 := Load3(s, 7, t);
    w3 := Load3(s, 10, t);
    w4 := Load3(s, 13, t);
    w5 := Load4(s, 16, t);
    w6 := Load3(s, 20, t);
    w7 := Load3(s, 23, t);
    w8 := Load3(s, 26, t);
    w9 := Load3(s, 29, t);
    Nested(w0 as int, w1 as int, w2 as int, w3 as int, w4 as int, w5 as int, w6 as int, w7 as int, w8 as int,
           w9 as int, t[4], t[7], t[10], t[13], t[16], t[20], t[23], t[26], t[0]);
  }

  /** Reads 32 bytes into h, ignoring the top bit. */
  method FeFromBytes(h: array<int32>, s: seq<uint8>)
    requires h.Length == 10 && |s| == 32
    modifies h
    ensures Within(h[..], 110)
    ensures Residue(h[..]) == (LittleEndian(s) % TWO255) % Zp.P
  {
    var w0, w1, w2, w3, w4, w5, w6, w7, w8, w9 := ReadWords(s);
    var c: Wide := [w0, w1 * 0x40, w2 * 0x20, w3 * 8, w4 * 4,
                    w5, w6 * 0x80, w7 * 0x20, w8 * 0x10, w9 % 0x80_0000 * 4];
    TopBitDropped(c[0] as int, c[1] as int, c[2] as int, c[3] as int, c[4] as int,
                  c[5] as int, c[6] as int, c[7] as int, c[8] as int, w9 as int);
    var w, t := CarryShort(c);
    CarriedValue(c, w, t);
    Store(h, w, 110);
  }

  // ----- writing

  ghost predicate IsFloor(q: int, x: int, size: int) { size * q <= x < size * q + size }

  /** x >> 25 and x >> 26 on int32: arithmetic shifts, rounding down. */
  function Floor25(x: int32): (r: int32)
    ensures IsFloor(r as int, x as int, 0x200_0000)
  {
    x / 0x200_0000
  }

  function Floor26(x: int32): (r: int32)
    ensures IsFloor(r as int, x as int, 0x400_0000)
  {
    x / 0x400_0000
  }

  /** Within(h, 220), limb by limb: below 1.1 * 2^26 for half == 2 and below 1.1 * 2^25 for half == 1. */
  ghost predicate Small(x: int32, half: int) { -36_909_875 * half <= x as int <= 36_909_875 * half }

  ghost predicate AllSmall(h: seq<int32>) {
    && |h| == 10
    && Small(h[0], 2) && Small(h[2], 2) && Small(h[4], 2) && Small(h[6], 2) && Small(h[8], 2)
    && Small(h[1], 1) && Small(h[3], 1) && Small(h[5], 1) && Small(h[7], 1) && Small(h[9], 1)
  }

  /** The nested roundings of fe_tobytes, which come to one rounding by 2^255. */
  method Quotient(h: seq<int32>) returns (q: int32, ghost q0: int)
    requires AllSmall(h)
    ensures IsFloor(q0, 19 * h[9] as int + 0x100_0000, 0x200_0000)
    ensures IsFloor(q as int, Val(h) + q0, TWO255)
  {
    var q0' := Floor25(19 * h[9] + 0x100_0000);
    var q1 := Floor26(h[0] + q0');
    var q2 := Floor25(h[1] + q1);
    var q3 := Floor26(h[2] + q2);
    var q4 := Floor25(h[3] + q3);
    var q5 := Floor26(h[4] + q4);
    var q6 := Floor25(h[5] + q5);
    var q7 := Floor26(h[6] + q6);
    var q8 := Floor25(h[7] + q7);
    var q9 := Floor26(h[8] + q8);
    q := Floor25(h[9] + q9);
    q0 := q0' as int;
    Rounds(h[0] as int, h[1] as int, h[2] as int, h[3] as int, h[4] as int, h[5] as int, h[6] as int,
           h[7] as int, h[8] as int, h[9] as int, q0, q1 as int, q2 as int, q3 as int, q4 as int, q5 as int,
           q6 as int, q7 as int, q8 as int, q9 as int, q as int);
    ValIs(h);
  }

  /** The nested roundings are one rounding of the whole. */
  lemma Rounds(h0: int, h1: int, h2: int, h3: int, h4: int, h5: int, h6: int, h7: int, h8: int, h9: int,
               q0: int, q1: int, q2: int, q3: int, q4: int, q5: int, q6: int, q7: int, q8: int, q9: int, q: int)
    requires IsFloor(q1, h0 + q0, 0x400_0000) && IsFloor(q2, h1 + q1, 0x200_0000)
    requires IsFloor(q3, h2 + q2, 0x400_0000) && IsFloor(q4, h3 + q3, 0x200_0000)
    requires IsFloor(q5, h4 + q4, 0x400_0000) && IsFloor(q6, h5 + q5, 0x200_0000)
    requires IsFloor(q7, h6 + q6, 0x400_0000) && IsFloor(q8, h7 + q7, 0x200_0000)
    requires IsFloor(q9, h8 + q8, 0x400_0000) && IsFloor(q, h9 + q9, 0x200_0000)
    ensures IsFloor(q, Weigh(h0, h1, h2, h3, h4, h5, h6, h7, h8, h9) + q0, TWO255)
  {
  }

  /** All limbs below the top one come to less than 1.2 * 2^230. */
  lemma NextToTop(h: seq<int32>)
    requires Within(h, 220)
    ensures -6 * W9 / 5 <= Val(h) - W9 * h[9] as int <= 6 * W9 / 5
  {
    ValIs(h);
  }

  lemma QuotientIsFloor(v: int, q0: int, q: int, h9: int)
    requires IsFloor(q, v + q0, TWO255)
    requires IsFloor(q0, 19 * h9 + 0x100_0000, 0x200_0000)
    requires -6 * W9 / 5 <= v - W9 * h9 <= 6 * W9 / 5
    requires -40_000_000 <= h9 <= 40_000_000
    ensures 0 <= v - Zp.P * q < Zp.P
    ensures -2 <= q <= 2
  {
  }

  /** The quotient is exact: this is the argument in the comment of fe_tobytes. */
  lemma QuotientIsExact(h: seq<int32>, q0: int, q: int)
    requires Within(h, 220)
    requires IsFloor(q0, 19 * h[9] as int + 0x100_0000, 0x200_0000) && IsFloor(q, Val(h) + q0, TWO255)
    ensures 0 <= Val(h) - Zp.P * q < Zp.P
    ensures -2 <= q <= 2
  {
    NextToTop(h);
    QuotientIsFloor(Val(h), q0, q, h[9] as int);
  }

  ghost predicate Splits(x: int, size: int, k: int, r: int) { x == r + size * k && 0 <= r < size }

  /** x >> 26, and x & kBottom26Bits. */
  method Mask26(x: int32) returns (k: int32, r: int32)
    ensures Splits(x as int, 0x400_0000, k as int, r as int)
  {
    k, r := x / 0x400_0000, x % 0x400_0000;
  }

  /** x >> 25, and x & kBottom25Bits. */
  method Mask25(x: int32) returns (k: int32, r: int32)
    ensures Splits(x as int, 0x200_0000, k as int, r as int)
  {
    k, r := x / 0x200_0000, x % 0x200_0000;
  }

  /** Limbs of 26 and 25 bits. */
  ghost predicate Reduced(h: seq<int32>) {
    && |h| == 10
    && 0 <= h[0] < 0x400_0000 && 0 <= h[2] < 0x400_0000 && 0 <= h[4] < 0x400_0000
    && 0 <= h[6] < 0x400_0000 && 0 <= h[8] < 0x400_0000
    && 0 <= h[1] < 0x200_0000 && 0 <= h[3] < 0x200_0000 && 0 <= h[5] < 0x200_0000
    && 0 <= h[7] < 0x200_0000 && 0 <= h[9] < 0x200_0000
  }

  /** Carries through two limbs, an even and an odd one. */
  method CarryTwo(x: int32, y: int32) returns (k0: int32, h0: int32, k1: int32, h1: int32)
    requires Small(x, 3) && Small(y, 1)
    ensures Splits(x as int, 0x400_0000, k0 as int, h0 as int)
    ensures Splits(y as int + k0 as int, 0x200_0000, k1 as int, h1 as int) && -8 <= k1 <= 8
  {
    k0, h0 := Mask26(x);
    k1, h1 := Mask25(y + k0);
  }

  /** Adding 19 q and carrying; k holds the carries, of which the last is dropped. */
  method Propagate(g: seq<int32>, q: int32) returns (h: seq<int32>, ghost k: seq<int>)
    requires AllSmall(g) && -2 <= q <= 2
    ensures IsPropagated(g, q as int, h, k)
  {
    var k0, h0, k1, h1 := CarryTwo(g[0] + 19 * q, g[1]);
    var k2, h2, k3, h3 := CarryTwo(g[2] + k1, g[3]);
    var k4, h4, k5, h5 := CarryTwo(g[4] + k3, g[5]);
    var k6, h6, k7, h7 := CarryTwo(g[6] + k5, g[7]);
    var k8, h8, k9, h9 := CarryTwo(g[8] + k7, g[9]);
    h := [h0, h1, h2, h3, h4, h5, h6, h7, h8, h9];
    k := [k0 as int, k1 as int, k2 as int, k3 as int, k4 as int,
          k5 as int, k6 as int, k7 as int, k8 as int, k9 as int];
  }

  ghost predicate IsPropagated(g: seq<int32>, q: int, h: seq<int32>, k: seq<int>) {
    && |g| == |h| == |k| == 10
    && Splits(g[0] as int + 19 * q, 0x400_0000, k[0], h[0] as int)
    && Splits(g[1] as int + k[0], 0x200_0000, k[1], h[1] as int)
    && Splits(g[2] as int + k[1], 0x400_0000, k[2], h[2] as int)
    && Splits(g[3] as int + k[2], 0x200_0000, k[3], h[3] as int)
    && Splits(g[4] as int + k[3], 0x400_0000, k[4], h[4] as int)
    && Splits(g[5] as int + k[4], 0x200_0000, k[5], h[5] as int)
    && Splits(g[6] as int + k[5], 0x400_0000, k[6], h[6] as int)
    && Splits(g[7] as int + k[6], 0x200_0000, k[7], h[7] as int)
    && Splits(g[8] as int + k[7], 0x400_0000, k[8], h[8] as int)
    && Splits(g[9] as int + k[8], 0x200_0000, k[9], h[9] as int)
  }

  lemma PropagatedValue(g: seq<int32>, q: int, h: seq<int32>, k: seq<int>)
    requires IsPropagated(g, q, h, k)
    ensures Val(h) + TWO255 * k[9] == Val(g) + 19 * q
  {
    ValIs(g);
    ValIs(h);
  }

  lemma ReducedRange(h: seq<int32>)
    requires Reduced(h)
    ensures 0 <= Val(h) < TWO255
  {
    ValIs(h);
  }

  /** The dropped carry is q, so the limbs are worth the residue. */
  lemma DroppedCarry(g: seq<int32>, q: int, h: seq<int32>, k: seq<int>)
    requires IsPropagated(g, q, h, k) && 0 <= Val(g) - Zp.P * q < Zp.P
    ensures Reduced(h) && Val(h) == Residue(g)
  {
    PropagatedValue(g, q, h, k);
    ReducedRange(h);
    TopCarry(Val(g), Val(h), q, k[9]);
  }

  lemma TopCarry(v: int, r: int, q: int, k: int)
    requires r + TWO255 * k == v + 19 * q && 0 <= r < TWO255 && 0 <= v - Zp.P * q < Zp.P
    ensures r == v % Zp.P
  {
    assert k == q;
    Zp.Congruent(v, r, q);
  }

  // ----- packing

  /** The bytes (uint8_t) (h >> k) and (uint8_t) (h >> (k + 8)), and h >> (k + 16), where p = 2^k. */
  method TwoBytes(h: int32, p: int32) returns (b0: uint8, b1: uint8, x: int32)
    requires 0 <= h && 1 <= p
    ensures h as int == h as int % p as int + p as int * (h as int / p as int)
    ensures h as int / p as int == b0 as int + 256 * b1 as int + 65536 * x as int
    ensures 0 <= x
  {
    DivisionShrinks(h as int, p as int);
    var y := h as int / p as int;
    b0, b1, x := (y % 256) as uint8, (y / 256 % 256) as uint8, (y / 65536) as int32;
  }

  lemma DivisionShrinks(h: int, p: int)
    requires 0 <= h && 1 <= p
    ensures h == h % p + p * (h / p) && 0 <= h / p <= h
  {
    var y := h / p;
    if y < 0 {
      Monotone(y, -1, p);
    } else {
      Monotone(1, p, y);
    }
  }

  /** (uint8_t) (x | next << k), where e = 2^k and f = 2^(8 - k): x has k bits, so | adds. */
  method Join(x: int32, e: int32, f: int32, next: int32) returns (b: uint8)
    requires 0 <= x < e && 0 <= next && 1 <= f && e as int * f as int == 256
    ensures b as int == x as int + e as int * (next as int % f as int)
  {
    b := ((x as int + e as int * next as int) % 256) as uint8;
    ShiftedByte(x as int, e as int, f as int, next as int);
  }

  lemma ShiftedByte(x: int, e: int, f: int, next: int)
    requires 0 <= x < e && 0 <= next && 1 <= f && e * f == 256
    ensures (x + e * next) % 256 == x + e * (next % f)
  {
    var y, z := next % f, next / f;
    calc {
      e * next;
      e * (f * z + y);
      (e * f) * z + e * y;
      256 * z + e * y;
    }
    Monotone(y, f - 1, e);
    Monotone(0, y, e);
    assert e * (f - 1) == 256 - e;
  }

  /** Sixteen bytes, least significant first. */
  ghost function Sixteen(s: seq<uint8>): int
    requires |s| == 16
  {
    s[0] as int + 0x100 * s[1] as int + 0x1_0000 * s[2] as int + 0x100_0000 * s[3] as int
    + 0x1_0000_0000 * (s[4] as int + 0x100 * s[5] as int + 0x1_0000 * s[6] as int + 0x100_0000 * s[7] as int)
    + 0x1_0000_0000_0000_0000 * (s[8] as int + 0x100 * s[9] as int + 0x1_0000 * s[10] as int
                                 + 0x100_0000 * s[11] as int)
    + 0x1_0000_0000_0000_0000_0000_0000 * (s[12] as int + 0x100 * s[13] as int + 0x1_0000 * s[14] as int
                                           + 0x100_0000 * s[15] as int)
  }

  /** Bytes 0 to 15 of fe_tobytes, from limbs 0 to 4. */
  method PackLow(h0: int32, h1: int32, h2: int32, h3: int32, h4: int32) returns (s: seq<uint8>)
    requires 0 <= h0 < 0x400_0000 && 0 <= h2 < 0x400_0000 && 0 <= h4 < 0x400_0000
    requires 0 <= h1 < 0x200_0000 && 0 <= h3 < 0x200_0000
    ensures |s| == 16
    ensures Sixteen(s) == h0 as int + W1 * h1 as int + W2 * h2 as int + W3 * h3 as int + W4 * h4 as int
  {
    var s0, s1, x0 := TwoBytes(h0, 1);
    var s4, s5, x1 := TwoBytes(h1, 0x40);
    var s7, s8, x2 := TwoBytes(h2, 0x20);
    var s10, s11, x3 := TwoBytes(h3, 8);
    var s13, s14, x4 := TwoBytes(h4, 4);
    var s3 := Join(x0 / 0x100, 4, 64, h1);
    var s6 := Join(x1, 8, 32, h2);
    var s9 := Join(x2, 32, 8, h3);
    var s12 := Join(x3, 64, 4, h4);
    s := [s0, s1, (x0 % 0x100) as uint8, s3, s4, s5, s6, s7, s8, s9, s10, s11, s12, s13, s14, x4 as uint8];
  }

  /** Bytes 16 to 31, from limbs 5 to 9. */
  method PackHigh(h5: int32, h6: int32, h7: int32, h8: int32, h9: int32) returns (s: seq<uint8>)
    requires 0 <= h6 < 0x400_0000 && 0 <= h8 < 0x400_0000
    requires 0 <= h5 < 0x200_0000 && 0 <= h7 < 0x200_0000 && 0 <= h9 < 0x200_0000
    ensures |s| == 16
    ensures W5 * Sixteen(s) == W5 * h5 as int + W6 * h6 as int + W7 * h7 as int + W8 * h8 as int + W9 * h9 as int
  {
    var s0, s1, x5 := TwoBytes(h5, 1);
    var s4, s5, x6 := TwoBytes(h6, 0x80);
    var s7, s8, x7 := TwoBytes(h7, 0x20);
    var s10, s11, x8 := TwoBytes(h8, 0x10);
    var s13, s14, x9 := TwoBytes(h9, 4);
    var s3 := Join(x5 / 0x100, 2, 128, h6);
    var s6 := Join(x6, 8, 32, h7);
    var s9 := Join(x7, 16, 16, h8);
    var s12 := Join(x8, 64, 4, h9);
    s := [s0, s1, (x5 % 0x100) as uint8, s3, s4, s5, s6, s7, s8, s9, s10, s11, s12, s13, s14, x9 as uint8];
  }

  lemma SixteenFirst(s: seq<uint8>, rest: seq<uint8>)
    requires |s| == 16
    ensures LittleEndian(s + rest) == Sixteen(s) + W5 * LittleEndian(rest)
  {
    var b := s + rest;
    FourFirst(s[..4], s[4..] + rest);
    FourFirst(s[4..8], s[8..] + rest);
    FourFirst(s[8..12], s[12..] + rest);
    FourFirst(s[12..], rest);
    assert s + rest == s[..4] + (s[4..] + rest) && s[4..] + rest == s[4..8] + (s[8..] + rest);
    assert s[8..] + rest == s[8..12] + (s[12..] + rest);
  }

  lemma FourFirst(s: seq<uint8>, rest: seq<uint8>)
    requires |s| == 4
    ensures LittleEndian(s + rest)
         == s[0] as int + 0x100 * s[1] as int + 0x1_0000 * s[2] as int + 0x100_0000 * s[3] as int
            + 0x1_0000_0000 * LittleEndian(rest)
  {
    assert (s + rest)[1..] == s[1..] + rest && (s[1..] + rest)[1..] == s[2..] + rest;
    assert (s[2..] + rest)[1..] == s[3..] + rest && (s[3..] + rest)[1..] == rest;
    assert LittleEndian(s[3..] + rest) == s[3] as int + 0x100 * LittleEndian(rest);
    assert LittleEndian(s[2..] + rest) == s[2] as int + 0x100 * LittleEndian(s[3..] + rest);
  }

  /** The bytes of reduced limbs. */
  method Pack(g: seq<int32>) returns (s: seq<uint8>)
    requires Reduced(g)
    ensures |s| == 32 && LittleEndian(s) == Val(g)
  {
    var low := PackLow(g[0], g[1], g[2], g[3], g[4]);
    var high := PackHigh(g[5], g[6], g[7], g[8], g[9]);
    s := low + high;
    assert high + [] == high;
    SixteenFirst(low, high);
    SixteenFirst(high, []);
    ValIs(g);
  }

  /** The reduced limbs of the residue of h. */
  method Reduce(h: seq<int32>) returns (g: seq<int32>)
    requires Within(h, 220)
    ensures Reduced(g) && Val(g) == Residue(h)
  {
    LimbsAreSmall(h);
    var q, q0 := Quotient(h);
    QuotientIsExact(h, q0, q as int);
    ghost var k;
    g, k := Propagate(h, q);
    DroppedCarry(h, q as int, g, k);
  }

  /** Writes the least residue of h as 32 bytes. */
  method FeToBytes(s: array<uint8>, h: array<int32>)
    requires s.Length == 32 && h.Length == 10
    requires Within(h[..], 220)
    modifies s
    ensures LittleEndian(s[..]) == Residue(old(h[..]))
  {
    var g := Reduce(h[..]);
    var bytes := Pack(g);
    forall i | 0 <= i < 32 { s[i] := bytes[i]; }
    assert s[..] == bytes;
  }

  lemma LimbsAreSmall(h: seq<int32>)
    requires Within(h, 220)
    ensures AllSmall(h)
  {
  }
}
