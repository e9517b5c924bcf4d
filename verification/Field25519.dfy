/** The ten-limb field arithmetic of X25519.  A field element is an array of ten signed
    32-bit limbs; limb i has weight 2^ceil(25.5 i).  int32 and int64 below are the C types:
    every operation on them carries the obligation that it does not overflow. */
module Field25519 {
  import opened Arithmetic

  import Zp

  newtype int32 = x: int | -0x8000_0000 <= x < 0x8000_0000
  newtype int64 = x: int | -0x8000_0000_0000_0000 <= x < 0x8000_0000_0000_0000

  const W1: int := 0x400_0000
  const W2: int := 0x8_0000_0000_0000
  const W3: int := 0x2000_0000_0000_0000_0000
  const W4: int := 0x40_0000_0000_0000_0000_0000_0000
  const W5: int := 0x1_0000_0000_0000_0000_0000_0000_0000_0000
  const W6: int := 0x200_0000_0000_0000_0000_0000_0000_0000_0000_0000
  const W7: int := 0x8_0000_0000_0000_0000_0000_0000_0000_0000_0000_0000_0000
  const W8: int := 0x1000_0000_0000_0000_0000_0000_0000_0000_0000_0000_0000_0000_0000
  const W9: int := 0x40_0000_0000_0000_0000_0000_0000_0000_0000_0000_0000_0000_0000_0000_0000

  /** The integer ten limbs stand for. */
  ghost function Weigh(h0: int, h1: int, h2: int, h3: int, h4: int,
                       h5: int, h6: int, h7: int, h8: int, h9: int): int {
    h0 + W1 * h1 + W2 * h2 + W3 * h3 + W4 * h4 + W5 * h5 + W6 * h6 + W7 * h7 + W8 * h8 + W9 * h9
  }

  ghost function Weight(i: nat): int {
    match i
    case 0 => 1
    case 1 => W1
    case 2 => W2
    case 3 => W3
    case 4 => W4
    case 5 => W5
    case 6 => W6
    case 7 => W7
    case 8 => W8
    case _ => W9
  }

  /** The value of limbs i and up. */
  ghost function ValFrom(s: seq<int32>, i: nat): int
    requires i <= |s|
    decreases |s| - i
  {
    if i == |s| then 0 else Weight(i) * s[i] as int + ValFrom(s, i + 1)
  }

  ghost function Val(s: seq<int32>): int
    requires |s| == 10
  {
    ValFrom(s, 0)
  }

  lemma ValIs(s: seq<int32>)
    requires |s| == 10
    ensures Val(s) == Weigh(s[0] as int, s[1] as int, s[2] as int, s[3] as int, s[4] as int,
                            s[5] as int, s[6] as int, s[7] as int, s[8] as int, s[9] as int)
  {
    assert ValFrom(s, 9) == W9 * s[9] as int + ValFrom(s, 10);
    assert ValFrom(s, 8) == W8 * s[8] as int + ValFrom(s, 9);
    assert ValFrom(s, 7) == W7 * s[7] as int + ValFrom(s, 8);
    assert ValFrom(s, 6) == W6 * s[6] as int + ValFrom(s, 7);
    assert ValFrom(s, 5) == W5 * s[5] as int + ValFrom(s, 6);
    assert ValFrom(s, 4) == W4 * s[4] as int + ValFrom(s, 5);
    assert ValFrom(s, 3) == W3 * s[3] as int + ValFrom(s, 4);
    assert ValFrom(s, 2) == W2 * s[2] as int + ValFrom(s, 3);
    assert ValFrom(s, 1) == W1 * s[1] as int + ValFrom(s, 2);
  }

  /** The field element ten limbs stand for. */
  ghost function Residue(s: seq<int32>): int
    requires |s| == 10
  {
    Val(s) % Zp.P
  }

  /** Even limbs bounded by c/100 * 2^25 and odd limbs by c/100 * 2^24, the form of the bounds in
      the comments of the source: c = 101, 110, 220 and 330 are its 1.01*2^25, 1.1*2^25, 1.1*2^26
      and 1.65*2^26. */
  ghost predicate Within(s: seq<int32>, c: int) {
    && |s| == 10
    && (forall i :: 0 <= i < 10 ==>
          var bound := if i % 2 == 0 then 0x200_0000 else 0x100_0000;
          -c * bound <= 100 * (s[i] as int) <= c * bound)
  }

  lemma WithinMonotone(s: seq<int32>, c: int, d: int)
    requires Within(s, c) && c <= d
    ensures Within(s, d)
  {
  }

  // ----- carries

  const BIT24: int64 := 0x100_0000
  const BIT25: int64 := 0x200_0000

  /** x >> 25 and x >> 26 on a two's complement value round towards minus infinity, as does
      Dafny's division by a positive number. */
  function Shr25(x: int64): int64 { x / 0x200_0000 }

  function Shr26(x: int64): int64 { x / 0x400_0000 }

  /** x & kTop39Bits: the low 25 bits cleared. */
  function Top39(x: int64): (r: int64)
    ensures r == 0x200_0000 * Shr25(x) && 0 <= x - r < 0x200_0000
  {
    x - x % 0x200_0000
  }

  /** x & kTop38Bits: the low 26 bits cleared. */
  function Top38(x: int64): (r: int64)
    ensures r == 0x400_0000 * Shr26(x) && 0 <= x - r < 0x400_0000
  {
    x - x % 0x400_0000
  }

  /** Ten limbs in the middle of a computation. */
  type Wide = h: seq<int64> | |h| == 10 witness seq(10, i => 0)

  ghost function Worth(h: Wide): int {
    Weigh(h[0] as int, h[1] as int, h[2] as int, h[3] as int, h[4] as int,
          h[5] as int, h[6] as int, h[7] as int, h[8] as int, h[9] as int)
  }

  ghost predicate Bounded(h: Wide, bound: int) {
    && AreBounded(h[0], h[1], h[2], h[3], h[4], bound)
    && AreBounded(h[5], h[6], h[7], h[8], h[9], bound)
  }

  /** The bound of Within, on limbs that are about to be stored. */
  ghost predicate Tight(h: Wide, c: int) {
    && IsTight(h[0], c * 0x200_0000) && IsTight(h[1], c * 0x100_0000)
    && IsTight(h[2], c * 0x200_0000) && IsTight(h[3], c * 0x100_0000)
    && IsTight(h[4], c * 0x200_0000) && IsTight(h[5], c * 0x100_0000)
    && IsTight(h[6], c * 0x200_0000) && IsTight(h[7], c * 0x100_0000)
    && IsTight(h[8], c * 0x200_0000) && IsTight(h[9], c * 0x100_0000)
  }

  ghost predicate IsTight(h: int64, bound: int) { -bound <= 100 * (h as int) <= bound }

  ghost predicate Headroom(x: int64) { -0x7000_0000_0000_0000 <= x <= 0x7000_0000_0000_0000 }

  /** The carries out of an even and an odd limb: the nearest multiples of 2^26 and 2^25. */
  ghost function Up26(x: int): int { (x + 0x200_0000) / 0x400_0000 }

  ghost function Up25(x: int): int { (x + 0x100_0000) / 0x200_0000 }

  /** The carry out of an even limb: leaves lo in [-2^25, 2^25) and moves the rest, c, up. */
  method Carry26(lo: int64, hi: int64) returns (lo': int64, hi': int64, ghost c: int)
    requires Headroom(lo) && Headroom(hi)
    ensures lo as int == lo' as int + 0x400_0000 * c && hi' as int == hi as int + c
    ensures -0x200_0000 <= lo' < 0x200_0000 && c == Up26(lo as int)
  {
    var carry := lo + BIT25;
    hi' := hi + Shr26(carry);
    lo' := lo - Top38(carry);
    c := Shr26(carry) as int;
  }

  /** The carry out of an odd limb: leaves lo in [-2^24, 2^24). */
  method Carry25(lo: int64, hi: int64) returns (lo': int64, hi': int64, ghost c: int)
    requires Headroom(lo) && Headroom(hi)
    ensures lo as int == lo' as int + 0x200_0000 * c && hi' as int == hi as int + c
    ensures -0x100_0000 <= lo' < 0x100_0000 && c == Up25(lo as int)
  {
    var carry := lo + BIT24;
    hi' := hi + Shr25(carry);
    lo' := lo - Top39(carry);
    c := Shr25(carry) as int;
  }

  /** The carry out of the top limb comes back, times 19, in limb 0: 2^255 = 19 modulo p. */
  method CarryTop(h9: int64, h0: int64) returns (h9': int64, h0': int64, ghost c: int)
    requires Headroom(h9) && Headroom(h0)
    ensures h9 as int == h9' as int + 0x200_0000 * c && h0' as int == h0 as int + 19 * c
    ensures -0x100_0000 <= h9' < 0x100_0000 && c == Up25(h9 as int)
  {
    var carry := h9 + BIT24;
    h0' := h0 + Shr25(carry) * 19;
    h9' := h9 - Top39(carry);
    c := Shr25(carry) as int;
  }

  /** h is c after carries of t_i in all out of limb i. */
  ghost predicate Carried(c: Wide, h: Wide, t: seq<int>) {
    && |t| == 10
    && h[0] as int == c[0] as int - 0x400_0000 * t[0] + 19 * t[9]
    && h[1] as int == c[1] as int - 0x200_0000 * t[1] + t[0]
    && h[2] as int == c[2] as int - 0x400_0000 * t[2] + t[1]
    && h[3] as int == c[3] as int - 0x200_0000 * t[3] + t[2]
    && h[4] as int == c[4] as int - 0x400_0000 * t[4] + t[3]
    && h[5] as int == c[5] as int - 0x200_0000 * t[5] + t[4]
    && h[6] as int == c[6] as int - 0x400_0000 * t[6] + t[5]
    && h[7] as int == c[7] as int - 0x200_0000 * t[7] + t[6]
    && h[8] as int == c[8] as int - 0x400_0000 * t[8] + t[7]
    && h[9] as int == c[9] as int - 0x200_0000 * t[9] + t[8]
  }

  /** The first eight carries of fe_mul and fe_sq, and the last four, as the limbs determine them. */
  ghost function FirstCarries(c: Wide): (t: seq<int>)
    ensures |t| == 10
  {
    var t0, t4 := Up26(c[0] as int), Up26(c[4] as int);
    var t1, t5 := Up25(c[1] as int + t0), Up25(c[5] as int + t4);
    var t2, t6 := Up26(c[2] as int + t1), Up26(c[6] as int + t5);
    var t3, t7 := Up25(c[3] as int + t2), Up25(c[7] as int + t6);
    [t0, t1, t2, t3, t4, t5, t6, t7, 0, 0]
  }

  ghost function LastCarries(c: Wide): (t: seq<int>)
    ensures |t| == 10
  {
    var t4, t8 := Up26(c[4] as int), Up26(c[8] as int);
    var t9 := Up25(c[9] as int + t8);
    [Up26(c[0] as int + 19 * t9), 0, 0, 0, t4, 0, 0, 0, t8, t9]
  }

  /** Limbs after both, from the columns of a product. */
  ghost predicate IsReduced(s: seq<int32>, c: Wide) {
    exists w: Wide, v: Wide {:trigger Carried(c, w, FirstCarries(c)), Carried(w, v, LastCarries(w))} ::
      Carried(c, w, FirstCarries(c)) && Carried(w, v, LastCarries(w)) && IsNarrowed(s, v)
  }

  ghost predicate IsNarrowed(s: seq<int32>, v: Wide) {
    |s| == 10 && forall i :: 0 <= i < 10 ==> s[i] as int == v[i] as int
  }

  lemma SameCarried(c: Wide, h: Wide, h': Wide, t: seq<int>)
    requires Carried(c, h, t) && Carried(c, h', t)
    ensures h == h'
  {
    assert h[0] == h'[0] && h[1] == h'[1] && h[2] == h'[2] && h[3] == h'[3] && h[4] == h'[4];
    assert h[5] == h'[5] && h[6] == h'[6] && h[7] == h'[7] && h[8] == h'[8] && h[9] == h'[9];
  }

  /** The columns determine the limbs. */
  lemma SameReduced(s: seq<int32>, s': seq<int32>, c: Wide)
    requires IsReduced(s, c) && IsReduced(s', c)
    ensures s == s'
  {
    var w, v :| Carried(c, w, FirstCarries(c)) && Carried(w, v, LastCarries(w)) && IsNarrowed(s, v);
    var w', v' :| Carried(c, w', FirstCarries(c)) && Carried(w', v', LastCarries(w')) && IsNarrowed(s', v');
    SameCarried(c, w, w', FirstCarries(c));
    SameCarried(w, v, v', LastCarries(w));
    forall i | 0 <= i < 10
      ensures s[i] == s'[i]
    {
      assert s[i] as int == v[i] as int == s'[i] as int;
    }
  }

  /** Carries change the value by a multiple of p only. */
  lemma CarriedValue(c: Wide, h: Wide, t: seq<int>)
    requires Carried(c, h, t)
    ensures Worth(h) % Zp.P == Worth(c) % Zp.P
  {
    assert Worth(h) + Zp.P * t[9] == Worth(c);
    Zp.Congruent(Worth(c), Worth(h), t[9]);
  }

  // ----- multiplication

  /** 2 * 1.65 * 2^26 and 19 * 1.65 * 2^26, the largest factors formed below. */
  const FACTOR: int := 221459251
  const FACTOR19: int := 2103862887
  const PRODUCT: int := FACTOR * FACTOR19

  /** f * (int64_t) g, for factors in the ranges that occur. */
  function Product(f: int32, g: int32): (r: int64)
    requires -FACTOR <= f as int <= FACTOR && -FACTOR19 <= g as int <= FACTOR19
    ensures r as int == f as int * g as int
    ensures -PRODUCT <= r as int <= PRODUCT
  {
    ProductBound(f as int, g as int);
    f as int64 * g as int64
  }

  lemma ProductBound(f: int, g: int)
    requires -FACTOR <= f <= FACTOR && -FACTOR19 <= g <= FACTOR19
    ensures -PRODUCT <= f * g <= PRODUCT
  {
    Monotone(0, FACTOR + f, FACTOR19 - g);
    Monotone(0, FACTOR - f, FACTOR19 + g);
    Monotone(0, FACTOR + f, FACTOR19 + g);
    Monotone(0, FACTOR - f, FACTOR19 - g);
  }

  const TWO255: int := Zp.P + 19

  /** A ten-by-ten matrix holding the products of the limbs of f and g. */
  ghost predicate IsProducts(m: seq<seq<int>>, f: seq<int32>, g: seq<int32>) {
    && |f| == |g| == 10
    && IsMatrix(m)
    && (forall i, j {:trigger Entry(m, i, j)} :: 0 <= i < 10 && 0 <= j < 10 ==>
          Entry(m, i, j) == f[i] as int * g[j] as int)
  }

  ghost function Products(f: seq<int32>, g: seq<int32>): (m: seq<seq<int>>)
    requires |f| == |g| == 10
    ensures IsProducts(m, f, g)
  {
    seq(10, i requires 0 <= i < 10 => seq(10, j requires 0 <= j < 10 => f[i] as int * g[j] as int))
  }

  ghost predicate IsMatrix(m: seq<seq<int>>) {
    |m| == 10 && forall i :: 0 <= i < 10 ==> |m[i]| == 10
  }

  ghost function Entry(m: seq<seq<int>>, i: nat, j: nat): int
    requires IsMatrix(m) && i < 10 && j < 10
  {
    m[i][j]
  }

  /** The coefficient of f_i * g_j in its column: 2 for two odd limbs, because odd weights are
      rounded up, and 19 when the weights reach 2^255. */
  ghost function Scaled(i: nat, j: nat, q: int): int {
    if i % 2 == 1 && j % 2 == 1 then (if i + j >= 10 then 38 * q else 2 * q)
    else (if i + j >= 10 then 19 * q else q)
  }

  /** (a * f_i) * (int64_t) (b * g_j). */
  method Times(f: seq<int32>, i: nat, a: int32, g: seq<int32>, j: nat, b: int32, ghost m: seq<seq<int>>)
    returns (r: int64)
    requires Within(f, 330) && Within(g, 330) && IsProducts(m, f, g) && i < 10 && j < 10
    requires (a == 1 || a == 2) && (b == 1 || b == 2 || b == 19 || (b == 38 && j % 2 == 1))
    ensures r as int == (a as int * b as int) * m[i][j]
    ensures -PRODUCT <= r as int <= PRODUCT
  {
    Multiple(a as int, f[i] as int);
    Multiple(b as int, g[j] as int);
    r := Product(a * f[i], b * g[j]);
    assert Entry(m, i, j) == f[i] as int * g[j] as int;
    Regroup(a as int, f[i] as int, b as int, g[j] as int);
  }

  lemma Multiple(a: int, x: int)
    ensures a == 1 ==> a * x == x
    ensures a == 2 ==> a * x == 2 * x
    ensures a == 19 ==> a * x == 19 * x
    ensures a == 38 ==> a * x == 38 * x
  {
  }

  lemma Regroup(a: int, x: int, b: int, y: int)
    ensures (a * x) * (b * y) == (a * b) * (x * y)
  {
  }

  /** The columns of the product modulo p. */
  ghost predicate AreColumns(h: Wide, m: seq<seq<int>>)
    requires IsMatrix(m)
  {
    && AreLowColumns(h[0] as int, h[1] as int, h[2] as int, h[3] as int, h[4] as int, m)
    && AreHighColumns(h[5] as int, h[6] as int, h[7] as int, h[8] as int, h[9] as int, m)
  }

  ghost predicate AreLowColumns(h0: int, h1: int, h2: int, h3: int, h4: int, m: seq<seq<int>>)
    requires IsMatrix(m)
  {
    && h0 == m[0][0] + 38 * m[1][9] + 19 * m[2][8] + 38 * m[3][7] + 19 * m[4][6] + 38 * m[5][5] +
             19 * m[6][4] + 38 * m[7][3] + 19 * m[8][2] + 38 * m[9][1]
    && h1 == m[0][1] + m[1][0] + 19 * m[2][9] + 19 * m[3][8] + 19 * m[4][7] + 19 * m[5][6] + 19 * m[6][5] +
             19 * m[7][4] + 19 * m[8][3] + 19 * m[9][2]
    && h2 == m[0][2] + 2 * m[1][1] + m[2][0] + 38 * m[3][9] + 19 * m[4][8] + 38 * m[5][7] + 19 * m[6][6] +
             38 * m[7][5] + 19 * m[8][4] + 38 * m[9][3]
    && h3 == m[0][3] + m[1][2] + m[2][1] + m[3][0] + 19 * m[4][9] + 19 * m[5][8] + 19 * m[6][7] +
             19 * m[7][6] + 19 * m[8][5] + 19 * m[9][4]
    && h4 == m[0][4] + 2 * m[1][3] + m[2][2] + 2 * m[3][1] + m[4][0] + 38 * m[5][9] + 19 * m[6][8] +
             38 * m[7][7] + 19 * m[8][6] + 38 * m[9][5]
  }

  ghost predicate AreHighColumns(h5: int, h6: int, h7: int, h8: int, h9: int, m: seq<seq<int>>)
    requires IsMatrix(m)
  {
    && h5 == m[0][5] + m[1][4] + m[2][3] + m[3][2] + m[4][1] + m[5][0] + 19 * m[6][9] + 19 * m[7][8] +
             19 * m[8][7] + 19 * m[9][6]
    && h6 == m[0][6] + 2 * m[1][5] + m[2][4] + 2 * m[3][3] + m[4][2] + 2 * m[5][1] + m[6][0] + 38 * m[7][9] +
             19 * m[8][8] + 38 * m[9][7]
    && h7 == m[0][7] + m[1][6] + m[2][5] + m[3][4] + m[4][3] + m[5][2] + m[6][1] + m[7][0] + 19 * m[8][9] +
             19 * m[9][8]
    && h8 == m[0][8] + 2 * m[1][7] + m[2][6] + 2 * m[3][5] + m[4][4] + 2 * m[5][3] + m[6][2] + 2 * m[7][1] +
             m[8][0] + 38 * m[9][9]
    && h9 == m[0][9] + m[1][8] + m[2][7] + m[3][6] + m[4][5] + m[5][4] + m[6][3] + m[7][2] + m[8][1] +
             m[9][0]
  }

  ghost predicate AreBounded(h0: int64, h1: int64, h2: int64, h3: int64, h4: int64, bound: int) {
    && -bound <= h0 as int <= bound && -bound <= h1 as int <= bound && -bound <= h2 as int <= bound
    && -bound <= h3 as int <= bound && -bound <= h4 as int <= bound
  }

  /** The hundred products of fe_mul: row i holds those of f_i. */
  ghost predicate AreRows(p: seq<seq<int64>>, m: seq<seq<int>>)
    requires IsMatrix(m)
  {
    && |p| == 10
    && (forall i :: 0 <= i < 10 ==> IsRow(i, p[i], m))
  }

  ghost predicate IsRow(i: nat, r: seq<int64>, m: seq<seq<int>>)
    requires IsMatrix(m) && i < 10
  {
    && |r| == 10
    && (forall j :: 0 <= j < 10 ==> r[j] as int == Scaled(i, j, m[i][j]) && -PRODUCT <= r[j] as int <= PRODUCT)
  }

  /** The source writes the hundred products out. */
  method MulRows(f: seq<int32>, g: seq<int32>, ghost m: seq<seq<int>>) returns (p: seq<seq<int64>>)
    requires Within(f, 330) && Within(g, 330) && IsProducts(m, f, g)
    ensures AreRows(p, m)
  {
    p := [];
    for i := 0 to 10
      invariant |p| == i
      invariant forall k :: 0 <= k < i ==> IsRow(k, p[k], m)
    {
      var r := [];
      for j := 0 to 10
        invariant |r| == j
        invariant forall k :: 0 <= k < j ==>
                    r[k] as int == Scaled(i, k, m[i][k]) && -PRODUCT <= r[k] as int <= PRODUCT
      {
        var t := Times(f, i, if i % 2 == 1 && j % 2 == 1 then 2 else 1, g, j, if i + j >= 10 then 19 else 1, m);
        r := r + [t];
      }
      p := p + [r];
    }
  }

  /** The column sums of fe_mul. */
  method LowColumns(p: seq<seq<int64>>, ghost m: seq<seq<int>>)
    returns (h0: int64, h1: int64, h2: int64, h3: int64, h4: int64)
    requires IsMatrix(m) && AreRows(p, m)
    ensures AreLowColumns(h0 as int, h1 as int, h2 as int, h3 as int, h4 as int, m)
    ensures AreBounded(h0, h1, h2, h3, h4, COLUMN)
  {
    h0 := p[0][0] + p[1][9] + p[2][8] + p[3][7] + p[4][6] + p[5][5] + p[6][4] + p[7][3] + p[8][2] + p[9][1];
    h1 := p[0][1] + p[1][0] + p[2][9] + p[3][8] + p[4][7] + p[5][6] + p[6][5] + p[7][4] + p[8][3] + p[9][2];
    h2 := p[0][2] + p[1][1] + p[2][0] + p[3][9] + p[4][8] + p[5][7] + p[6][6] + p[7][5] + p[8][4] + p[9][3];
    h3 := p[0][3] + p[1][2] + p[2][1] + p[3][0] + p[4][9] + p[5][8] + p[6][7] + p[7][6] + p[8][5] + p[9][4];
    h4 := p[0][4] + p[1][3] + p[2][2] + p[3][1] + p[4][0] + p[5][9] + p[6][8] + p[7][7] + p[8][6] + p[9][5];
  }

  method HighColumns(p: seq<seq<int64>>, ghost m: seq<seq<int>>)
    returns (h5: int64, h6: int64, h7: int64, h8: int64, h9: int64)
    requires IsMatrix(m) && AreRows(p, m)
    ensures AreHighColumns(h5 as int, h6 as int, h7 as int, h8 as int, h9 as int, m)
    ensures AreBounded(h5, h6, h7, h8, h9, COLUMN)
  {
    h5 := p[0][5] + p[1][4] + p[2][3] + p[3][2] + p[4][1] + p[5][0] + p[6][9] + p[7][8] + p[8][7] + p[9][6];
    h6 := p[0][6] + p[1][5] + p[2][4] + p[3][3] + p[4][2] + p[5][1] + p[6][0] + p[7][9] + p[8][8] + p[9][7];
    h7 := p[0][7] + p[1][6] + p[2][5] + p[3][4] + p[4][3] + p[5][2] + p[6][1] + p[7][0] + p[8][9] + p[9][8];
    h8 := p[0][8] + p[1][7] + p[2][6] + p[3][5] + p[4][4] + p[5][3] + p[6][2] + p[7][1] + p[8][0] + p[9][9];
    h9 := p[0][9] + p[1][8] + p[2][7] + p[3][6] + p[4][5] + p[5][4] + p[6][3] + p[7][2] + p[8][1] + p[9][0];
  }

  /** The 55 products of fe_sq: row i holds those of f_i with itself and with later limbs, the
      latter doubled. */
  ghost predicate AreSqRows(p: seq<seq<int64>>, m: seq<seq<int>>)
    requires IsMatrix(m)
  {
    && |p| == 10
    && (forall i :: 0 <= i < 10 ==> IsSqRow(i, p[i], m))
  }

  ghost predicate IsSqRow(i: nat, r: seq<int64>, m: seq<seq<int>>)
    requires IsMatrix(m) && i < 10
  {
    && |r| == 10 - i
    && (forall k :: 0 <= k < 10 - i ==> IsSqTerm(i, i + k, r[k], m[i][i + k]))
  }

  ghost predicate IsSqTerm(i: nat, j: nat, r: int64, q: int) {
    && r as int == (if i == j then Scaled(i, j, q) else 2 * Scaled(i, j, q))
    && -PRODUCT <= r as int <= PRODUCT
  }

  /** f_i * f_j for j >= i, from the multiples of f_i and f_j that the source forms. */
  method SqTerm(f: seq<int32>, i: nat, j: nat, ghost m: seq<seq<int>>) returns (r: int64)
    requires Within(f, 330) && IsProducts(m, f, f) && i <= j < 10
    ensures IsSqTerm(i, j, r, m[i][j])
  {
    var wraps := i + j >= 10;
    if i == j {
      if i % 2 == 0 {
        r := Times(f, i, 1, f, i, if wraps then 19 else 1, m);
      } else if wraps {
        r := Times(f, i, 1, f, i, 38, m);
      } else {
        r := Times(f, i, 2, f, i, 1, m);
      }
    } else if j % 2 == 0 {
      r := Times(f, i, 2, f, j, if wraps then 19 else 1, m);
    } else if i % 2 == 0 {
      r := Times(f, i, if wraps then 1 else 2, f, j, if wraps then 38 else 1, m);
    } else {
      r := Times(f, i, 2, f, j, if wraps then 38 else 2, m);
    }
  }

  /** The source writes the 55 products out. */
  method SqRows(f: seq<int32>, ghost m: seq<seq<int>>) returns (p: seq<seq<int64>>)
    requires Within(f, 330) && IsProducts(m, f, f)
    ensures AreSqRows(p, m)
  {
    p := [];
    for i := 0 to 10
      invariant |p| == i
      invariant forall k :: 0 <= k < i ==> IsSqRow(k, p[k], m)
    {
      var r := [];
      for j := i to 10
        invariant |r| == j - i
        invariant forall k :: 0 <= k < j - i ==> IsSqTerm(i, i + k, r[k], m[i][i + k])
      {
        var t := SqTerm(f, i, j, m);
        r := r + [t];
      }
      p := p + [r];
    }
  }

  /** The column sums of fe_sq. */
  method LowSqColumns(p: seq<seq<int64>>, ghost m: seq<seq<int>>)
    returns (h0: int64, h1: int64, h2: int64, h3: int64, h4: int64)
    requires IsMatrix(m) && AreSqRows(p, m) && IsSymmetric(m)
    ensures AreLowColumns(h0 as int, h1 as int, h2 as int, h3 as int, h4 as int, m)
    ensures AreBounded(h0, h1, h2, h3, h4, COLUMN)
  {
    h0 := p[0][0] + p[1][8] + p[2][6] + p[3][4] + p[4][2] + p[5][0];
    h1 := p[0][1] + p[2][7] + p[3][5] + p[4][3] + p[5][1];
    h2 := p[0][2] + p[1][0] + p[3][6] + p[4][4] + p[5][2] + p[6][0];
    h3 := p[0][3] + p[1][1] + p[4][5] + p[5][3] + p[6][1];
    h4 := p[0][4] + p[1][2] + p[2][0] + p[5][4] + p[6][2] + p[7][0];
  }

  method HighSqColumns(p: seq<seq<int64>>, ghost m: seq<seq<int>>)
    returns (h5: int64, h6: int64, h7: int64, h8: int64, h9: int64)
    requires IsMatrix(m) && AreSqRows(p, m) && IsSymmetric(m)
    ensures AreHighColumns(h5 as int, h6 as int, h7 as int, h8 as int, h9 as int, m)
    ensures AreBounded(h5, h6, h7, h8, h9, COLUMN)
  {
    h5 := p[0][5] + p[1][3] + p[2][1] + p[6][3] + p[7][1];
    h6 := p[0][6] + p[1][4] + p[2][2] + p[3][0] + p[7][2] + p[8][0];
    h7 := p[0][7] + p[1][5] + p[2][3] + p[3][1] + p[8][1];
    h8 := p[0][8] + p[1][6] + p[2][4] + p[3][2] + p[4][0] + p[9][0];
    h9 := p[0][9] + p[1][7] + p[2][5] + p[3][3] + p[4][1];
  }

  ghost predicate IsSymmetric(m: seq<seq<int>>)
    requires IsMatrix(m)
  {
    forall i, j :: 0 <= i < 10 && 0 <= j < 10 ==> m[i][j] == m[j][i]
  }

  lemma Symmetric(m: seq<seq<int>>, f: seq<int32>)
    requires IsProducts(m, f, f)
    ensures IsSymmetric(m)
  {
    forall i, j | 0 <= i < 10 && 0 <= j < 10
      ensures m[i][j] == m[j][i]
    {
      assert Entry(m, i, j) == Entry(m, j, i);
    }
  }

  /** Ten rows of ten, each shifted by its weight, add up to the columns and a multiple k of p. */
  lemma Collect(h: Wide, m: seq<seq<int>>) returns (k: int)
    requires IsMatrix(m) && AreColumns(h, m)
    ensures Weigh(Row(m[0]), Row(m[1]), Row(m[2]), Row(m[3]), Row(m[4]),
                  Row(m[5]), Row(m[6]), Row(m[7]), Row(m[8]), Row(m[9]))
         == Worth(h) + Zp.P * k
  {
    var u0 := 2 * m[1][9] + m[2][8] + 2 * m[3][7] + m[4][6] + 2 * m[5][5] + m[6][4] + 2 * m[7][3] + m[8][2] +
             2 * m[9][1];
    var u1 := m[2][9] + m[3][8] + m[4][7] + m[5][6] + m[6][5] + m[7][4] + m[8][3] + m[9][2];
    var u2 := 2 * m[3][9] + m[4][8] + 2 * m[5][7] + m[6][6] + 2 * m[7][5] + m[8][4] + 2 * m[9][3];
    var u3 := m[4][9] + m[5][8] + m[6][7] + m[7][6] + m[8][5] + m[9][4];
    var u4 := 2 * m[5][9] + m[6][8] + 2 * m[7][7] + m[8][6] + 2 * m[9][5];
    var u5 := m[6][9] + m[7][8] + m[8][7] + m[9][6];
    var u6 := 2 * m[7][9] + m[8][8] + 2 * m[9][7];
    var u7 := m[8][9] + m[9][8];
    var u8 := 2 * m[9][9];
    k := Weigh(u0, u1, u2, u3, u4, u5, u6, u7, u8, 0);
  }

  ghost function Row(r: seq<int>): int
    requires |r| == 10
  {
    Weigh(r[0], r[1], r[2], r[3], r[4], r[5], r[6], r[7], r[8], r[9])
  }

  lemma RowValue(i: nat, m: seq<seq<int>>, f: seq<int32>, g: seq<int32>)
    requires IsProducts(m, f, g) && i < 10
    ensures Row(m[i]) == f[i] as int * Val(g)
  {
    Distribute(f[i] as int, g[0] as int, g[1] as int, g[2] as int, g[3] as int, g[4] as int, g[5] as int,
               g[6] as int, g[7] as int, g[8] as int, g[9] as int);
    ValIs(g);
    assert forall j :: 0 <= j < 10 ==> m[i][j] == Entry(m, i, j);
  }

  lemma Distribute(x: int, g0: int, g1: int, g2: int, g3: int, g4: int, g5: int, g6: int, g7: int, g8: int, g9: int)
    ensures x * Weigh(g0, g1, g2, g3, g4, g5, g6, g7, g8, g9)
         == Weigh(x * g0, x * g1, x * g2, x * g3, x * g4, x * g5, x * g6, x * g7, x * g8, x * g9)
  {
  }

  lemma RowsValue(m: seq<seq<int>>, f: seq<int32>, g: seq<int32>)
    requires IsProducts(m, f, g)
    ensures Weigh(Row(m[0]), Row(m[1]), Row(m[2]), Row(m[3]), Row(m[4]),
                  Row(m[5]), Row(m[6]), Row(m[7]), Row(m[8]), Row(m[9]))
         == Val(f) * Val(g)
  {
    forall i | 0 <= i < 10
      ensures Row(m[i]) == f[i] as int * Val(g)
    {
      RowValue(i, m, f, g);
    }
    ValIs(f);
    DistributeLeft(f[0] as int, f[1] as int, f[2] as int, f[3] as int, f[4] as int, f[5] as int, f[6] as int,
                   f[7] as int, f[8] as int, f[9] as int, Val(g));
  }

  lemma DistributeLeft(f0: int, f1: int, f2: int, f3: int, f4: int, f5: int, f6: int, f7: int, f8: int, f9: int, y: int)
    ensures Weigh(f0, f1, f2, f3, f4, f5, f6, f7, f8, f9) * y
         == Weigh(f0 * y, f1 * y, f2 * y, f3 * y, f4 * y, f5 * y, f6 * y, f7 * y, f8 * y, f9 * y)
  {
  }

  /** The columns are worth the product of f and g, up to a multiple k of p. */
  lemma ColumnsValue(h: Wide, m: seq<seq<int>>, f: seq<int32>, g: seq<int32>) returns (k: int)
    requires IsProducts(m, f, g) && AreColumns(h, m)
    ensures Val(f) * Val(g) == Worth(h) + Zp.P * k
  {
    RowsValue(m, f, g);
    k := Collect(h, m);
  }

  // ----- the carry chains

  /** Each column is a sum of ten products. */
  const COLUMN: int := 10 * PRODUCT

  /** 1.1 * 2^26 * 121666, rounded up: the largest limb the short chain meets. */
  const SHORT: int := 0x82b_2266_6667

  /** After the first eight carries, limbs 8 and 9 are still wide and limb 4 wide again. */
  ghost predicate HalfCarried(h: Wide) {
    && AreBounded(h[0], h[2], h[6], h[6], h[6], 0x200_0000)
    && AreBounded(h[1], h[3], h[5], h[7], h[7], 0x100_0000)
    && AreBounded(h[4], h[4], h[4], h[4], h[4], 0x40_0000_0000)
    && AreBounded(h[8], h[8], h[9], h[9], h[9], COLUMN + 0x40_0000_0000)
  }

  /** The twelve carries of fe_mul and fe_sq: the first eight ... */
  method CarryProduct(c: Wide) returns (h: Wide, ghost t: seq<int>)
    requires Bounded(c, COLUMN)
    ensures HalfCarried(h) && Carried(c, h, t) && t == FirstCarries(c)
  {
    var h0, h1, h2, h3, h4, h5, h6, h7, h8 := c[0], c[1], c[2], c[3], c[4], c[5], c[6], c[7], c[8];
    ghost var t0, t1, t2, t3, t4, t5, t6, t7;

    h0, h1, t0 := Carry26(h0, h1);
    h4, h5, t4 := Carry26(h4, h5);

    h1, h2, t1 := Carry25(h1, h2);
    h5, h6, t5 := Carry25(h5, h6);

    h2, h3, t2 := Carry26(h2, h3);
    h6, h7, t6 := Carry26(h6, h7);

    h3, h4, t3 := Carry25(h3, h4);
    h7, h8, t7 := Carry25(h7, h8);

    h := [h0, h1, h2, h3, h4, h5, h6, h7, h8, c[9]];
    t := [t0, t1, t2, t3, t4, t5, t6, t7, 0, 0];
  }

  /** ... and the last four. */
  method CarryProductTop(c: Wide) returns (h: Wide, ghost t: seq<int>)
    requires HalfCarried(c)
    ensures Tight(h, 101) && Carried(c, h, t) && t == LastCarries(c)
  {
    var h4, h5, t4 := Carry26(c[4], c[5]);
    var h8, h9, t8 := Carry26(c[8], c[9]);

    var h0; ghost var t9;
    h9, h0, t9 := CarryTop(h9, c[0]);

    var h1; ghost var t0;
    h0, h1, t0 := Carry26(h0, c[1]);

    h := [h0, h1, c[2], c[3], h4, h5, c[6], c[7], h8, h9];
    t := [t0, 0, 0, 0, t4, 0, 0, 0, t8, t9];
  }

  /** The ten carries of fe_frombytes and fe_mul121666. */
  method CarryShort(c: Wide) returns (h: Wide, ghost t: seq<int>)
    requires Bounded(c, SHORT)
    ensures Tight(h, 110) && Carried(c, h, t)
  {
    var h9, h0, t9 := CarryTop(c[9], c[0]);
    var h1, h2, t1 := Carry25(c[1], c[2]);
    var h3, h4, t3 := Carry25(c[3], c[4]);
    var h5, h6, t5 := Carry25(c[5], c[6]);
    var h7, h8, t7 := Carry25(c[7], c[8]);

    ghost var t0, t2, t4, t6, t8;
    h0, h1, t0 := Carry26(h0, h1);
    h2, h3, t2 := Carry26(h2, h3);
    h4, h5, t4 := Carry26(h4, h5);
    h6, h7, t6 := Carry26(h6, h7);
    h8, h9, t8 := Carry26(h8, h9);

    h := [h0, h1, h2, h3, h4, h5, h6, h7, h8, h9];
    t := [t0, t1, t2, t3, t4, t5, t6, t7, t8, t9];
  }

  // ----- the field operations, in place on arrays that may overlap

  /** The final assignments h[0] = h0, ..., which narrow to 32 bits. */
  method Store(h: array<int32>, w: Wide, ghost c: int)
    requires h.Length == 10
    requires Tight(w, c) && (c == 101 || c == 110)
    modifies h
    ensures Within(h[..], c) && Val(h[..]) == Worth(w) && IsNarrowed(h[..], w)
  {
    var s := Narrow(w, c);
    forall i | 0 <= i < 10 { h[i] := s[i]; }
    assert h[..] == s;
  }

  method Narrow(w: Wide, ghost c: int) returns (s: seq<int32>)
    requires Tight(w, c) && (c == 101 || c == 110)
    ensures Within(s, c) && Val(s) == Worth(w) && IsNarrowed(s, w)
  {
    s := [w[0] as int32, w[1] as int32, w[2] as int32, w[3] as int32, w[4] as int32,
          w[5] as int32, w[6] as int32, w[7] as int32, w[8] as int32, w[9] as int32];
    NarrowValue(s, w);
    NarrowBounds(s, w, c);
  }

  lemma NarrowValue(s: seq<int32>, w: Wide)
    requires IsNarrowed(s, w)
    ensures Val(s) == Worth(w)
  {
    ValIs(s);
  }

  lemma NarrowBounds(s: seq<int32>, w: Wide, c: int)
    requires IsNarrowed(s, w) && Tight(w, c)
    ensures Within(s, c)
  {
    forall i | 0 <= i < 10
      ensures IsTight(w[i], c * if i % 2 == 0 then 0x200_0000 else 0x100_0000)
    {
    }
  }

  /** h = f */
  method FeCopy(h: array<int32>, f: array<int32>)
    requires h.Length == f.Length == 10
    modifies h
    ensures h[..] == old(f[..])
  {
    forall i | 0 <= i < 10 { h[i] := f[i]; }
  }

  /** h = 0 */
  method Fe0(h: array<int32>)
    requires h.Length == 10
    modifies h
    ensures Within(h[..], 101) && Residue(h[..]) == 0
  {
    forall i | 0 <= i < 10 { h[i] := 0; }
    ValIs(h[..]);
  }

  /** h = 1 */
  method Fe1(h: array<int32>)
    requires h.Length == 10
    modifies h
    ensures Within(h[..], 101) && Residue(h[..]) == 1
  {
    forall i | 0 <= i < 10 { h[i] := 0; }
    h[0] := 1;
    ValIs(h[..]);
  }

  /** h = f + g */
  method FeAdd(h: array<int32>, f: array<int32>, g: array<int32>)
    requires h.Length == f.Length == g.Length == 10
    requires Within(f[..], 110) && Within(g[..], 110)
    modifies h
    ensures Within(h[..], 220)
    ensures Residue(h[..]) == Zp.Add(Residue(old(f[..])), Residue(old(g[..])))
  {
    ghost var s, t := f[..], g[..];
    for i := 0 to 10
      invariant forall k :: 0 <= k < i ==> h[k] as int == s[k] as int + t[k] as int
      invariant forall k :: i <= k < 10 ==> f[k] == s[k] && g[k] == t[k]
    {
      h[i] := f[i] + g[i];
    }
    SumValue(h[..], s, t);
  }

  lemma SumValue(h: seq<int32>, f: seq<int32>, g: seq<int32>)
    requires Within(f, 110) && Within(g, 110) && |h| == 10
    requires forall i :: 0 <= i < 10 ==> h[i] as int == f[i] as int + g[i] as int
    ensures Within(h, 220) && Residue(h) == Zp.Add(Residue(f), Residue(g))
  {
    SumValueFrom(h, f, g, 0);
    Zp.AddResidues(Val(f), Val(g));
  }

  lemma {:induction false} SumValueFrom(h: seq<int32>, f: seq<int32>, g: seq<int32>, i: nat)
    requires |f| == |g| == |h| && i <= |h|
    requires forall k :: 0 <= k < |h| ==> h[k] as int == f[k] as int + g[k] as int
    ensures ValFrom(h, i) == ValFrom(f, i) + ValFrom(g, i)
    decreases |h| - i
  {
    if i < |h| {
      SumValueFrom(h, f, g, i + 1);
      assert Weight(i) * (f[i] as int + g[i] as int) == Weight(i) * f[i] as int + Weight(i) * g[i] as int;
    }
  }

  /** h = f - g */
  method FeSub(h: array<int32>, f: array<int32>, g: array<int32>)
    requires h.Length == f.Length == g.Length == 10
    requires Within(f[..], 110) && Within(g[..], 110)
    modifies h
    ensures Within(h[..], 220)
    ensures Residue(h[..]) == Zp.Sub(Residue(old(f[..])), Residue(old(g[..])))
  {
    ghost var s, t := f[..], g[..];
    for i := 0 to 10
      invariant forall k :: 0 <= k < i ==> h[k] as int == s[k] as int - t[k] as int
      invariant forall k :: i <= k < 10 ==> f[k] == s[k] && g[k] == t[k]
    {
      h[i] := f[i] - g[i];
    }
    DifferenceValue(h[..], s, t);
  }

  lemma DifferenceValue(h: seq<int32>, f: seq<int32>, g: seq<int32>)
    requires Within(f, 110) && Within(g, 110) && |h| == 10
    requires forall i :: 0 <= i < 10 ==> h[i] as int == f[i] as int - g[i] as int
    ensures Within(h, 220) && Residue(h) == Zp.Sub(Residue(f), Residue(g))
  {
    DifferenceValueFrom(h, f, g, 0);
    Zp.SubResidues(Val(f), Val(g));
  }

  lemma {:induction false} DifferenceValueFrom(h: seq<int32>, f: seq<int32>, g: seq<int32>, i: nat)
    requires |f| == |g| == |h| && i <= |h|
    requires forall k :: 0 <= k < |h| ==> h[k] as int == f[k] as int - g[k] as int
    ensures ValFrom(h, i) == ValFrom(f, i) - ValFrom(g, i)
    decreases |h| - i
  {
    if i < |h| {
      DifferenceValueFrom(h, f, g, i + 1);
      assert Weight(i) * (f[i] as int - g[i] as int) == Weight(i) * f[i] as int - Weight(i) * g[i] as int;
    }
  }

  /** The limbs of a product: the columns, after the carries. */
  ghost predicate IsProduct(s: seq<int32>, f: seq<int32>, g: seq<int32>)
    requires |f| == |g| == 10
  {
    exists c: Wide {:trigger ColumnsOf(c, f, g)} :: ColumnsOf(c, f, g) && IsReduced(s, c)
  }

  ghost predicate ColumnsOf(c: Wide, f: seq<int32>, g: seq<int32>)
    requires |f| == |g| == 10
  {
    AreColumns(c, Products(f, g))
  }

  lemma SameColumns(c: Wide, c': Wide, m: seq<seq<int>>)
    requires IsMatrix(m) && AreColumns(c, m) && AreColumns(c', m)
    ensures c == c'
  {
    assert c[0] == c'[0] && c[1] == c'[1] && c[2] == c'[2] && c[3] == c'[3] && c[4] == c'[4];
    assert c[5] == c'[5] && c[6] == c'[6] && c[7] == c'[7] && c[8] == c'[8] && c[9] == c'[9];
  }

  /** The factors determine them, so that fe_sq gives the limbs that fe_mul gives. */
  lemma SameLimbs(s: seq<int32>, s': seq<int32>, f: seq<int32>, g: seq<int32>)
    requires |f| == |g| == 10 && IsProduct(s, f, g) && IsProduct(s', f, g)
    ensures s == s'
  {
    var c :| ColumnsOf(c, f, g) && IsReduced(s, c);
    var c' :| ColumnsOf(c', f, g) && IsReduced(s', c');
    SameColumns(c, c', Products(f, g));
    SameReduced(s, s', c);
  }

  lemma ProductIs(s: seq<int32>, c: Wide, f: seq<int32>, g: seq<int32>, m: seq<seq<int>>)
    requires |f| == |g| == 10 && m == Products(f, g) && AreColumns(c, m) && IsReduced(s, c)
    ensures IsProduct(s, f, g)
  {
    assert ColumnsOf(c, f, g);
  }

  /** h = f * g */
  method FeMul(h: array<int32>, f: array<int32>, g: array<int32>)
    requires h.Length == f.Length == g.Length == 10
    requires Within(f[..], 330) && Within(g[..], 330)
    modifies h
    ensures Within(h[..], 101) && IsProduct(h[..], old(f[..]), old(g[..]))
    ensures Residue(h[..]) == Zp.Mul(Residue(old(f[..])), Residue(old(g[..])))
  {
    ghost var m := Products(f[..], g[..]);
    var p := MulRows(f[..], g[..], m);
    var h0, h1, h2, h3, h4 := LowColumns(p, m);
    var h5, h6, h7, h8, h9 := HighColumns(p, m);
    ReduceInto(h, [h0, h1, h2, h3, h4, h5, h6, h7, h8, h9], f[..], g[..], m);
  }

  /** h = f * f */
  method FeSq(h: array<int32>, f: array<int32>)
    requires h.Length == f.Length == 10
    requires Within(f[..], 330)
    modifies h
    ensures Within(h[..], 101) && IsProduct(h[..], old(f[..]), old(f[..]))
    ensures Residue(h[..]) == Zp.Sq(Residue(old(f[..])))
  {
    ghost var m := Products(f[..], f[..]);
    Symmetric(m, f[..]);
    var p := SqRows(f[..], m);
    var h0, h1, h2, h3, h4 := LowSqColumns(p, m);
    var h5, h6, h7, h8, h9 := HighSqColumns(p, m);
    ReduceInto(h, [h0, h1, h2, h3, h4, h5, h6, h7, h8, h9], f[..], f[..], m);
  }

  /** The common end of fe_mul and fe_sq. */
  method ReduceInto(h: array<int32>, c: Wide, ghost f: seq<int32>, ghost g: seq<int32>, ghost m: seq<seq<int>>)
    requires h.Length == 10
    requires |f| == |g| == 10 && m == Products(f, g) && AreColumns(c, m) && Bounded(c, COLUMN)
    modifies h
    ensures Within(h[..], 101) && IsProduct(h[..], f, g)
    ensures Residue(h[..]) == Zp.Mul(Residue(f), Residue(g))
  {
    Carries(h, c);
    ProductIs(h[..], c, f, g, m);
    ghost var k := ColumnsValue(c, m, f, g);
    Zp.Congruent(Val(f) * Val(g), Worth(c), k);
    Zp.MulResidues(Val(f), Val(g));
  }

  method Carries(h: array<int32>, c: Wide)
    requires h.Length == 10 && Bounded(c, COLUMN)
    modifies h
    ensures Within(h[..], 101) && IsReduced(h[..], c) && Val(h[..]) % Zp.P == Worth(c) % Zp.P
  {
    var w, t := CarryProduct(c);
    CarriedValue(c, w, t);
    var v, u := CarryProductTop(w);
    CarriedValue(w, v, u);
    Store(h, v, 101);
  }

  /** h = 121666 * f */
  method FeMul121666(h: array<int32>, f: array<int32>)
    requires h.Length == f.Length == 10
    requires Within(f[..], 220)
    modifies h
    ensures Within(h[..], 110)
    ensures Residue(h[..]) == Zp.Mul(121666, Residue(old(f[..])))
  {
    assert Within(f[..], 220);
    var c: Wide := [f[0] as int64 * 121666, f[1] as int64 * 121666, f[2] as int64 * 121666,
                    f[3] as int64 * 121666, f[4] as int64 * 121666, f[5] as int64 * 121666,
                    f[6] as int64 * 121666, f[7] as int64 * 121666, f[8] as int64 * 121666,
                    f[9] as int64 * 121666];
    var w, t := CarryShort(c);
    CarriedValue(c, w, t);
    ValIs(f[..]);
    assert Worth(c) == 121666 * Val(f[..]);
    Zp.MulResidues(121666, Val(f[..]));
    Store(h, w, 110);
  }
}
