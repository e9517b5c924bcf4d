/** X25519: the Montgomery ladder of section 5 of RFC 7748 over ten-limb field elements. */
module X25519 {
  import Zp
  import opened Common
  import opened Bitwise
  import opened Field25519
  import opened Bytes25519

  // ----- the ladder of RFC 7748, section 5, on residues

  /** The projective coordinates (x2 : z2) and (x3 : z3). */
  datatype Rungs = Rungs(x2: int, z2: int, x3: int, z3: int)

  ghost function Swapped(b: int, s: Rungs): Rungs {
    if b == 1 then Rungs(s.x3, s.z3, s.x2, s.z2) else s
  }

  /** One round of the ladder, without its conditional swap. */
  ghost function Step(x1: int, s: Rungs): Rungs {
    var a, b := Zp.Add(s.x2, s.z2), Zp.Sub(s.x2, s.z2);
    var aa, bb := Zp.Sq(a), Zp.Sq(b);
    var e := Zp.Sub(aa, bb);
    var c, d := Zp.Add(s.x3, s.z3), Zp.Sub(s.x3, s.z3);
    var da, cb := Zp.Mul(d, a), Zp.Mul(c, b);
    Rungs(Zp.Mul(aa, bb), Zp.Mul(e, Zp.Add(aa, Zp.Mul(121665, e))),
          Zp.Sq(Zp.Add(da, cb)), Zp.Mul(x1, Zp.Sq(Zp.Sub(da, cb))))
  }

  /** The rungs after the n leading bits of a scalar, of which k is the value. */
  ghost function Climb(x1: int, k: nat, n: nat): Rungs {
    if n == 0 then Rungs(1, 0, x1, 1)
    else Swapped(k % 2, Step(x1, Swapped(k % 2, Climb(x1, k / 2, n - 1))))
  }

  /** x2 * z2^(p - 2) after all 255 bits. */
  ghost function ScalarMult(k: nat, u: int): int {
    var s := Climb(u % Zp.P, k, 255);
    Zp.Mul(s.x2, Zp.Pow(s.z2, Zp.P - 2))
  }

  // ----- the round of the code

  ghost predicate Holds(a: array<int32>, r: int, c: int)
    reads a
  {
    a.Length == 10 && Within(a[..], c) && Residue(a[..]) == r
  }

  /** The working variables hold rungs, all within the bounds of fe_add. */
  ghost predicate HoldRungs(x2: array<int32>, z2: array<int32>, x3: array<int32>, z3: array<int32>, s: Rungs)
    reads x2, z2, x3, z3
  {
    Holds(x2, s.x2, 110) && Holds(z2, s.z2, 110) && Holds(x3, s.x3, 110) && Holds(z3, s.z3, 110)
  }

  /** The 18 field operations of one round: the first six, up to DA and CB ... */
  method Cross(x2: array<int32>, z2: array<int32>, x3: array<int32>, z3: array<int32>,
               tmp0: array<int32>, tmp1: array<int32>, ghost s: Rungs)
    requires tmp0.Length == tmp1.Length == 10 && Distinct(x2, z2, x3, z3, tmp0, tmp1)
    requires HoldRungs(x2, z2, x3, z3, s)
    modifies x2, z2, z3, tmp0, tmp1
    ensures Holds(x2, Zp.Add(s.x2, s.z2), 220) && Holds(tmp1, Zp.Sub(s.x2, s.z2), 220)
    ensures Holds(z3, Zp.Mul(Zp.Sub(s.x3, s.z3), Zp.Add(s.x2, s.z2)), 101)
    ensures Holds(z2, Zp.Mul(Zp.Add(s.x3, s.z3), Zp.Sub(s.x2, s.z2)), 101)
  {
    FeSub(tmp0, x3, z3);
    FeSub(tmp1, x2, z2);
    FeAdd(x2, x2, z2);
    FeAdd(z2, x3, z3);
    FeMul(z3, tmp0, x2);
    FeMul(z2, z2, tmp1);
  }

  /** ... the next six, up to E ... */
  method Square(x2: array<int32>, z2: array<int32>, x3: array<int32>, z3: array<int32>,
                tmp0: array<int32>, tmp1: array<int32>, ghost a: int, ghost b: int, ghost da: int, ghost cb: int)
    requires tmp0.Length == x3.Length == 10 && Distinct(x2, z2, x3, z3, tmp0, tmp1)
    requires Holds(x2, a, 220) && Holds(tmp1, b, 220) && Holds(z3, da, 101) && Holds(z2, cb, 101)
    modifies x2, z2, x3, tmp0, tmp1
    ensures Holds(tmp0, Zp.Sq(b), 101) && Holds(tmp1, Zp.Sub(Zp.Sq(a), Zp.Sq(b)), 220)
    ensures Holds(x2, Zp.Mul(Zp.Sq(a), Zp.Sq(b)), 101)
    ensures Holds(x3, Zp.Add(da, cb), 220) && Holds(z2, Zp.Sub(da, cb), 220)
  {
    Squares(x2, tmp0, tmp1, a, b);
    FeAdd(x3, z3, z2);
    FeSub(z2, z3, z2);
    FeMul(x2, tmp1, tmp0);
    FeSub(tmp1, tmp1, tmp0);
  }

  method Squares(x2: array<int32>, tmp0: array<int32>, tmp1: array<int32>, ghost a: int, ghost b: int)
    requires tmp0.Length == 10 && x2 !in {tmp0, tmp1} && tmp0 != tmp1
    requires Holds(x2, a, 220) && Holds(tmp1, b, 220)
    modifies tmp0, tmp1
    ensures Holds(tmp0, Zp.Sq(b), 101) && Holds(tmp1, Zp.Sq(a), 101)
  {
    FeSq(tmp0, tmp1);
    FeSq(tmp1, x2);
  }

  /** ... and the last six, where the code forms BB + 121666 E. */
  method Combine(x1: array<int32>, z2: array<int32>, x3: array<int32>, z3: array<int32>,
                 tmp0: array<int32>, tmp1: array<int32>,
                 ghost u: int, ghost bb: int, ghost e: int, ghost sum: int, ghost difference: int)
    requires z3.Length == 10 && Distinct(x1, z2, x3, z3, tmp0, tmp1)
    requires Holds(x1, u, 110) && Holds(tmp0, bb, 101) && Holds(tmp1, e, 220)
    requires Holds(x3, sum, 220) && Holds(z2, difference, 220)
    modifies z2, x3, z3, tmp0
    ensures Holds(z2, Zp.Mul(e, Zp.Add(bb, Zp.Mul(121666, e))), 101)
    ensures Holds(x3, Zp.Sq(sum), 101) && Holds(z3, Zp.Mul(u, Zp.Sq(difference)), 101)
  {
    FeSq(z2, z2);
    FeMul121666(z3, tmp1);
    FeSq(x3, x3);
    FeAdd(tmp0, tmp0, z3);
    FeMul(z3, x1, z2);
    FeMul(z2, tmp1, tmp0);
  }

  /** One round, which computes a step of the ladder of the standard: BB + 121666 E is AA + 121665 E. */
  method Round(x1: array<int32>, x2: array<int32>, z2: array<int32>, x3: array<int32>, z3: array<int32>,
               tmp0: array<int32>, tmp1: array<int32>, ghost u: int, ghost s: Rungs)
    requires tmp0.Length == tmp1.Length == 10
    requires Distinct(x2, z2, x3, z3, tmp0, tmp1) && x1 !in {x2, z2, x3, z3, tmp0, tmp1}
    requires Holds(x1, u, 110)
    requires HoldRungs(x2, z2, x3, z3, s)
    modifies x2, z2, x3, z3, tmp0, tmp1
    ensures HoldRungs(x2, z2, x3, z3, Step(u, s))
  {
    ghost var a, b := Zp.Add(s.x2, s.z2), Zp.Sub(s.x2, s.z2);
    ghost var da, cb := Zp.Mul(Zp.Sub(s.x3, s.z3), a), Zp.Mul(Zp.Add(s.x3, s.z3), b);
    ghost var aa, bb := Zp.Sq(a), Zp.Sq(b);
    Cross(x2, z2, x3, z3, tmp0, tmp1, s);
    Square(x2, z2, x3, z3, tmp0, tmp1, a, b, da, cb);
    Combine(x1, z2, x3, z3, tmp0, tmp1, u, bb, Zp.Sub(aa, bb), Zp.Add(da, cb), Zp.Sub(da, cb));
    SameMultiple(aa, bb);
    WithinMonotone(x2[..], 101, 110);
    WithinMonotone(z2[..], 101, 110);
    WithinMonotone(x3[..], 101, 110);
    WithinMonotone(z3[..], 101, 110);
  }

  ghost predicate Distinct(a: array<int32>, b: array<int32>, c: array<int32>, d: array<int32>,
                           e: array<int32>, f: array<int32>) {
    a !in {b, c, d, e, f} && b !in {c, d, e, f} && c !in {d, e, f} && d !in {e, f} && e != f
  }

  /** BB + 121666 E is AA + 121665 E. */
  lemma SameMultiple(aa: int, bb: int)
    ensures var e := Zp.Sub(aa, bb); Zp.Add(bb, Zp.Mul(121666, e)) == Zp.Add(aa, Zp.Mul(121665, e))
  {
    var e := Zp.Sub(aa, bb);
    Zp.Congruent(bb + Zp.Mul(121666, e), aa + Zp.Mul(121665, e),
                 121665 * e / Zp.P - 121666 * e / Zp.P - (aa - bb) / Zp.P);
  }

  // ----- inversion

  /** e * 2^n */
  ghost function Shifted(e: nat, n: nat): nat { if n == 0 then e else 2 * Shifted(e, n - 1) }

  /** An exponential function: all that the addition chain relies on. */
  ghost predicate IsPower(pow: nat -> int) {
    forall a: nat, b: nat {:trigger Zp.Mul(pow(a), pow(b))} :: Zp.Mul(pow(a), pow(b)) == pow(a + b)
  }

  method FeSqPower(h: array<int32>, f: array<int32>, ghost pow: nat -> int, ghost e: nat, ghost c: int)
    requires h.Length == 10 && IsPower(pow)
    requires Holds(f, pow(e), c) && c <= 330
    modifies h
    ensures Holds(h, pow(2 * e), 101)
  {
    WithinMonotone(f[..], c, 330);
    FeSq(h, f);
    assert Zp.Mul(pow(e), pow(e)) == pow(e + e);
  }

  method FeMulPower(h: array<int32>, f: array<int32>, g: array<int32>,
                    ghost pow: nat -> int, ghost e: nat, ghost d: nat, ghost c: int)
    requires h.Length == 10 && IsPower(pow)
    requires Holds(f, pow(e), c) && c <= 330 && Holds(g, pow(d), 101)
    modifies h
    ensures Holds(h, pow(e + d), 101)
  {
    WithinMonotone(f[..], c, 330);
    WithinMonotone(g[..], 101, 330);
    FeMul(h, f, g);
    assert Zp.Mul(pow(e), pow(d)) == pow(e + d);
  }

  /** h = f^(2^n): one fe_sq and a loop of n - 1 more. */
  method FeSqTimes(h: array<int32>, f: array<int32>, n: nat, ghost pow: nat -> int, ghost e: nat)
    requires h.Length == 10 && n >= 1 && IsPower(pow)
    requires Holds(f, pow(e), 101)
    modifies h
    ensures Holds(h, pow(Shifted(e, n)), 101)
  {
    FeSqPower(h, f, pow, e, 101);
    ghost var d := 2 * e;
    for i := 1 to n
      invariant d == Shifted(e, i) && Holds(h, pow(d), 101)
    {
      FeSqPower(h, h, pow, d, 101);
      d := 2 * d;
    }
  }

  lemma ShiftedBy(e: nat, n: nat, p: nat)
    requires p == TwoTo(n)
    ensures Shifted(e, n) == e * p
  {
    if n > 0 {
      ShiftedBy(e, n - 1, TwoTo(n - 1));
    }
  }

  lemma TwoTo5To20()
    ensures TwoTo(2) == 4 && TwoTo(5) == 0x20 && TwoTo(10) == 0x400 && TwoTo(20) == 0x10_0000
  {
    TwoToSum(5, 5, 0x20, 0x20);
    TwoToSum(10, 10, 0x400, 0x400);
  }

  lemma TwoTo50()
    ensures TwoTo(50) == 0x4_0000_0000_0000
  {
    TwoTo5To20();
    TwoToSum(20, 20, 0x10_0000, 0x10_0000);
    TwoToSum(40, 10, 0x100_0000_0000, 0x400);
  }

  lemma TwoTo100()
    ensures TwoTo(100) == 0x10_0000_0000_0000_0000_0000_0000
  {
    TwoTo50();
    TwoToSum(50, 50, 0x4_0000_0000_0000, 0x4_0000_0000_0000);
  }

  lemma TwoTo5To100()
    ensures TwoTo(2) == 4 && TwoTo(5) == 0x20 && TwoTo(10) == 0x400 && TwoTo(20) == 0x10_0000
    ensures TwoTo(50) == 0x4_0000_0000_0000
    ensures TwoTo(100) == 0x10_0000_0000_0000_0000_0000_0000
  {
    TwoTo5To20();
    TwoTo50();
    TwoTo100();
  }

  /** t = f^(2^n), h = t * g: the step the chain repeats.  p is 2^n and the exponent e * p + d. */
  method ShiftAndMul(h: array<int32>, t: array<int32>, f: array<int32>, n: nat, g: array<int32>,
                     ghost pow: nat -> int, ghost e: nat, ghost p: nat, ghost d: nat)
    requires h.Length == t.Length == 10 && t != g && n >= 1 && IsPower(pow)
    requires Holds(f, pow(e), 101) && Holds(g, pow(d), 101) && p == TwoTo(n)
    modifies h, t
    ensures Holds(h, pow(e * p + d), 101)
  {
    FeSqTimes(t, f, n, pow, e);
    ShiftedBy(e, n, p);
    FeMulPower(h, t, g, pow, e * p, d, 101);
  }

  // The values 2^n - 1 the chain passes through.
  const ONES10: nat := 0x3ff
  const ONES20: nat := 0xf_ffff
  const ONES40: nat := 0xff_ffff_ffff
  const ONES50: nat := 0x3_ffff_ffff_ffff
  const ONES100: nat := 0xf_ffff_ffff_ffff_ffff_ffff_ffff
  const ONES200: nat := 0xff_ffff_ffff_ffff_ffff_ffff_ffff_ffff_ffff_ffff_ffff_ffff_ffff
  const ONES250: nat := 0x3ff_ffff_ffff_ffff_ffff_ffff_ffff_ffff_ffff_ffff_ffff_ffff_ffff_ffff_ffff_ffff

  /** The addition chain of fe_invert: up to z^9 and z^11 ... */
  method ChainTo11(z: array<int32>, t0: array<int32>, t1: array<int32>, ghost pow: nat -> int)
    requires t0.Length == t1.Length == 10 && IsPower(pow)
    requires z !in {t0, t1} && t0 != t1
    requires Holds(z, pow(1), 330)
    modifies t0, t1
    ensures Holds(t0, pow(11), 101) && Holds(t1, pow(9), 101)
  {
    TwoTo5To100();
    ShiftedBy(2, 2, 4);
    FeSqPower(t0, z, pow, 1, 330);
    FeSqTimes(t1, t0, 2, pow, 2);
    FeMulPower(t1, z, t1, pow, 1, 8, 330);
    FeMulPower(t0, t0, t1, pow, 2, 9, 101);
  }

  /** ... to z^(2^5 - 1) and on to z^(2^50 - 1) ... */
  method ChainTo50(t0: array<int32>, t1: array<int32>, t2: array<int32>, t3: array<int32>, ghost pow: nat -> int)
    requires t2.Length == t3.Length == 10 && IsPower(pow)
    requires t0 !in {t1, t2, t3} && t1 !in {t2, t3} && t2 != t3
    requires Holds(t0, pow(11), 101) && Holds(t1, pow(9), 101)
    modifies t1, t2, t3
    ensures Holds(t1, pow(ONES50), 101)
  {
    FeSqPower(t2, t0, pow, 11, 101);
    FeMulPower(t1, t1, t2, pow, 9, 22, 101);

    TwoTo5To100();
    ShiftAndMul(t1, t2, t1, 5, t1, pow, 31, 0x20, 31);
    ShiftAndMul(t2, t2, t1, 10, t1, pow, ONES10, 0x400, ONES10);
    ShiftAndMul(t2, t3, t2, 20, t2, pow, ONES20, 0x10_0000, ONES20);
    ShiftAndMul(t1, t2, t2, 10, t1, pow, ONES40, 0x400, ONES10);
  }

  /** ... to z^(2^255 - 21). */
  method ChainTo255(out: array<int32>, t0: array<int32>, t1: array<int32>, t2: array<int32>, t3: array<int32>,
                    ghost pow: nat -> int)
    requires out.Length == t2.Length == t3.Length == 10 && IsPower(pow)
    requires t0 !in {t1, t2, t3} && t1 !in {t2, t3} && t2 != t3
    requires Holds(t0, pow(11), 101) && Holds(t1, pow(ONES50), 101)
    modifies out, t1, t2, t3
    ensures Holds(out, pow(Zp.P - 2), 101)
  {
    TwoTo5To100();
    ShiftAndMul(t2, t2, t1, 50, t1, pow, ONES50, 0x4_0000_0000_0000, ONES50);
    ShiftAndMul(t2, t3, t2, 100, t2, pow, ONES100, 0x10_0000_0000_0000_0000_0000_0000, ONES100);
    ShiftAndMul(t1, t2, t2, 50, t1, pow, ONES200, 0x4_0000_0000_0000, ONES50);
    ShiftAndMul(out, t1, t1, 5, t0, pow, ONES250, 0x20, 11);
  }

  /** out = z^(p - 2) */
  method FeInvert(out: array<int32>, z: array<int32>)
    requires out.Length == z.Length == 10
    requires Within(z[..], 330)
    modifies out
    ensures Within(out[..], 101)
    ensures Residue(out[..]) == Zp.Pow(Residue(old(z[..])), Zp.P - 2)
  {
    var t0, t1, t2, t3 := new int32[10], new int32[10], new int32[10], new int32[10];
    ghost var x := Residue(z[..]);
    ghost var pow := (e: nat) => Zp.Pow(x, e);
    PowIsPower(x, pow);
    ChainTo11(z, t0, t1, pow);
    ChainTo50(t0, t1, t2, t3, pow);
    ChainTo255(out, t0, t1, t2, t3, pow);
  }

  lemma PowIsPower(x: int, pow: nat -> int)
    requires 0 <= x < Zp.P
    requires forall e: nat :: pow(e) == Zp.Pow(x, e)
    ensures IsPower(pow) && pow(1) == x
  {
    forall a: nat, b: nat
      ensures Zp.Mul(pow(a), pow(b)) == pow(a + b)
    {
      Zp.PowAdd(x, a, b);
    }
    assert Zp.Pow(x, 1) == Zp.Mul(x, Zp.Pow(x, 0));
  }

  // ----- the conditional swap

  function Xor32(a: int32, b: int32): int32 {
    TwoTo31();
    XorRange(a as int, b as int, 31);
    Xor(a as int, b as int) as int32
  }

  lemma TwoTo31()
    ensures TwoTo(31) == 0x8000_0000
  {
    TwoTo5To100();
    TwoToAdd(20, 10);
    TwoToAdd(30, 1);
  }

  /** x & (0 - b) is x for b == 1 and 0 for b == 0. */
  function Masked(x: int32, b: int32): (r: int32)
    requires b == 0 || b == 1
    ensures r == if b == 1 then x else 0
  {
    ZeroAndOnes(x as int);
    And(x as int, 0 - b as int) as int32
  }

  lemma MaskedXor(f: int32, g: int32)
    ensures Xor32(f, Xor32(f, g)) == g && Xor32(g, Xor32(f, g)) == f && Xor32(f, 0) == f && Xor32(g, 0) == g
  {
    XorCancels(f as int, g as int, Xor(f as int, g as int));
    XorCommutes(f as int, g as int);
    XorCancels(g as int, f as int, Xor(f as int, g as int));
    ZeroAndOnes(f as int);
    ZeroAndOnes(g as int);
  }

  /** Swaps f and g if b is 1 and leaves them if b is 0, without a branch on b. */
  method FeCswap(f: array<int32>, g: array<int32>, b: int32)
    requires f.Length == g.Length == 10 && (b == 0 || b == 1)
    modifies f, g
    ensures f[..] == if b == 1 then old(g[..]) else old(f[..])
    ensures g[..] == if b == 1 then old(f[..]) else old(g[..])
  {
    for i := 0 to 10
      invariant forall k :: 0 <= k < i ==> f[k] == if b == 1 then old(g[k]) else old(f[k])
      invariant forall k :: 0 <= k < i ==> g[k] == if b == 1 then old(f[k]) else old(g[k])
      invariant forall k :: i <= k < 10 ==> f[k] == old(f[k]) && g[k] == old(g[k])
    {
      MaskedXor(f[i], g[i]);
      var x := Xor32(f[i], g[i]);
      x := Masked(x, b);
      f[i] := Xor32(f[i], x);
      g[i] := Xor32(g[i], x);
    }
  }

  // ----- scalars

  /** x >> k */
  function ShiftRight(x: nat, k: nat): nat { if k == 0 then x else ShiftRight(x / 2, k - 1) }

  /** Bit pos of a scalar: 1 & (e[pos / 8] >> (pos & 7)). */
  function BitAt(e: seq<uint8>, pos: nat): (r: int32)
    requires pos < 8 * |e|
    ensures r == 0 || r == 1
  {
    (ShiftRight(e[pos / 8] as nat, pos % 8) % 2) as int32
  }

  lemma ShiftBy4(x: nat, k: nat)
    requires k >= 4
    ensures ShiftRight(x, k) == ShiftRight(x / 16, k - 4)
  {
    assert ShiftRight(x, k) == ShiftRight(x / 2, k - 1) == ShiftRight(x / 4, k - 2) == ShiftRight(x / 8, k - 3);
  }

  lemma ShiftByte(x: nat, k: nat)
    requires k >= 8
    ensures ShiftRight(x, k) == ShiftRight(x / 256, k - 8)
  {
    ShiftBy4(x, k);
    ShiftBy4(x / 16, k - 4);
    assert x / 16 / 16 == x / 256;
  }

  /** Multiples of 2^(k + 1) do not reach bit k. */
  lemma {:induction false} LowBits(b: nat, rest: nat, k: nat)
    ensures ShiftRight(b + TwoTo(k + 1) * rest, k) % 2 == ShiftRight(b, k) % 2
  {
    if k > 0 {
      assert TwoTo(k + 1) * rest == 2 * (TwoTo(k) * rest);
      LowBits(b / 2, rest, k - 1);
    }
  }

  /** The code's bit is the bit of the integer. */
  lemma {:induction false} BitOfScalar(e: seq<uint8>, pos: nat)
    requires pos < 8 * |e|
    ensures BitAt(e, pos) as int == ShiftRight(LittleEndian(e), pos) % 2
    decreases pos
  {
    var rest := LittleEndian(e[1..]);
    if pos < 8 {
      ByteSplits(pos, rest);
      LowBits(e[0] as nat, TwoTo(7 - pos) * rest, pos);
    } else {
      LaterByte(e[0] as nat, rest, pos);
      assert e[1..][(pos - 8) / 8] == e[pos / 8] && (pos - 8) % 8 == pos % 8;
      BitOfScalar(e[1..], pos - 8);
    }
  }

  lemma LaterByte(b: nat, rest: nat, pos: nat)
    requires b < 256 && pos >= 8
    ensures ShiftRight(b + 256 * rest, pos) == ShiftRight(rest, pos - 8)
  {
    ShiftByte(b + 256 * rest, pos);
    FirstByte(b, rest);
  }

  lemma FirstByte(b: int, rest: int)
    requires 0 <= b < 256
    ensures (b + 256 * rest) / 256 == rest
  {
  }

  lemma ByteSplits(pos: nat, rest: nat)
    requires pos < 8
    ensures 256 * rest == TwoTo(pos + 1) * (TwoTo(7 - pos) * rest)
  {
    TwoToAdd(pos + 1, 7 - pos);
    assert TwoTo(8) == 256;
  }

  const TWO254: nat := 0x4000_0000_0000_0000_0000_0000_0000_0000_0000_0000_0000_0000_0000_0000_0000_0000

  /** The decoding of a scalar in section 5 of RFC 7748, on integers: the three low bits and bit 255
      are cleared and bit 254 is set. */
  ghost function Clamp(n: nat): nat { n % TWO254 - n % 8 + TWO254 }

  /** e[0] &= 248; e[31] &= 127; e[31] |= 64; */
  method ClampBytes(scalar: seq<uint8>) returns (e: seq<uint8>)
    requires |scalar| == 32
    ensures |e| == 32 && LittleEndian(e) == Clamp(LittleEndian(scalar))
  {
    e := scalar[0 := scalar[0] - scalar[0] % 8];
    e := e[31 := e[31] % 128];
    e := e[31 := if e[31] < 64 then e[31] + 64 else e[31]];
    ClampValue(scalar, e);
  }

  lemma ClampValue(s: seq<uint8>, e: seq<uint8>)
    requires |s| == |e| == 32 && s[1..31] == e[1..31]
    requires e[0] == s[0] - s[0] % 8 && e[31] == s[31] % 64 + 64
    ensures LittleEndian(e) == Clamp(LittleEndian(s))
  {
    EndBytes(s);
    EndBytes(e);
    ClampEnds(s[0] as int, LittleEndian(s[1..31]), s[31] as int);
  }

  const TWO240: nat := 0x1_0000_0000_0000_0000_0000_0000_0000_0000_0000_0000_0000_0000_0000_0000_0000

  lemma EndBytes(e: seq<uint8>)
    requires |e| == 32
    ensures LittleEndian(e) == e[0] as int + 256 * LittleEndian(e[1..31]) + 256 * TWO240 * e[31] as int
    ensures LittleEndian(e[1..31]) < TWO240
  {
    TwoTo240();
    LastByte(e[1..31], e[31]);
    assert e[1..] == e[1..31] + [e[31]];
  }

  lemma TwoTo240()
    ensures TwoTo(240) == TWO240
  {
    TwoTo5To20();
    TwoTo100();
    TwoToSum(20, 20, TwoTo(20), TwoTo(20));
    TwoToSum(100, 100, TwoTo(100), TwoTo(100));
    TwoToSum(200, 40, TwoTo(200), TwoTo(40));
  }

  lemma {:induction false} LastByte(s: seq<uint8>, b: uint8)
    ensures LittleEndian(s + [b]) == LittleEndian(s) + TwoTo(8 * |s|) * b as int
    ensures LittleEndian(s) < TwoTo(8 * |s|)
  {
    if s == [] {
      assert s + [b] == [b] && [b][1..] == [];
    } else {
      LastByte(s[1..], b);
      assert (s + [b])[1..] == s[1..] + [b];
      var p := TwoTo(8 * |s[1..]|);
      TwoToAdd(8, 8 * |s[1..]|);
      assert TwoTo(8 * |s|) == 256 * p;
      assert (256 * p) * b as int == 256 * (p * b as int);
    }
  }

  lemma ClampEnds(first: int, middle: int, last: int)
    requires 0 <= first < 256 && 0 <= middle < TWO240 && 0 <= last < 256
    ensures var n := first + 256 * middle + 256 * TWO240 * last;
      Clamp(n) == (first - first % 8) + 256 * middle + 256 * TWO240 * (last % 64 + 64)
  {
    var low := first + 256 * middle + 256 * TWO240 * (last % 64);
    Remainder254(first + 256 * middle + 256 * TWO240 * last, last / 64, low);
    Remainder8(first, 32 * middle + 32 * TWO240 * last);
  }

  lemma Remainder254(n: int, q: int, r: int)
    requires n == TWO254 * q + r && 0 <= r < TWO254
    ensures n % TWO254 == r
  {
  }

  lemma Remainder8(r: int, k: int)
    ensures (r + 8 * k) % 8 == r % 8
  {
  }

  // ----- the whole ladder

  /** Both swaps of a round. */
  method SwapRungs(x2: array<int32>, z2: array<int32>, x3: array<int32>, z3: array<int32>, b: int32, ghost s: Rungs)
    requires x2 !in {z2, x3, z3} && z2 !in {x3, z3} && x3 != z3 && (b == 0 || b == 1)
    requires HoldRungs(x2, z2, x3, z3, s)
    modifies x2, z2, x3, z3
    ensures HoldRungs(x2, z2, x3, z3, Swapped(b as int, s))
  {
    FeCswap(x2, x3, b);
    FeCswap(z2, z3, b);
  }

  lemma ShiftLast(k: nat, pos: nat)
    ensures ShiftRight(k, pos + 1) == ShiftRight(k, pos) / 2
  {
    if pos > 0 {
      ShiftLast(k / 2, pos - 1);
    }
  }

  /** climb(n) are the rungs after the n leading bits of the 255 bits of e. */
  ghost predicate IsClimb(climb: nat -> Rungs, u: int, e: seq<uint8>) {
    && |e| == 32
    && climb(0) == Rungs(1, 0, u, 1)
    && (forall n: nat {:trigger Next(climb, n)} :: n < 255 ==>
          var b := BitAt(e, 254 - n) as int;
          Next(climb, n) == Swapped(b, Step(u, Swapped(b, climb(n)))))
  }

  ghost function Next(climb: nat -> Rungs, n: nat): Rungs { climb(n + 1) }

  lemma ClimbOne(u: int, k: nat, pos: nat, b: int)
    requires pos < 255 && b == ShiftRight(k, pos) % 2
    ensures Climb(u, ShiftRight(k, pos), 255 - pos)
         == Swapped(b, Step(u, Swapped(b, Climb(u, ShiftRight(k, pos + 1), 254 - pos))))
  {
    ShiftLast(k, pos);
  }

  lemma ClimbIsClimb(climb: nat -> Rungs, u: int, e: seq<uint8>)
    requires |e| == 32
    requires forall n: nat :: n <= 255 ==> climb(n) == Climb(u, ShiftRight(LittleEndian(e), 255 - n), n)
    ensures IsClimb(climb, u, e)
  {
    forall n: nat | n < 255
      ensures var b := BitAt(e, 254 - n) as int;
              Next(climb, n) == Swapped(b, Step(u, Swapped(b, climb(n))))
    {
      BitOfScalar(e, 254 - n);
      ClimbOne(u, LittleEndian(e), 254 - n, BitAt(e, 254 - n) as int);
    }
  }

  /** swap ^= b undoes a pending swap and does the next. */
  lemma SwapTwice(swap: int32, b: int32, s: Rungs)
    requires (swap == 0 || swap == 1) && (b == 0 || b == 1)
    ensures Xor32(swap, b) == (if swap == b then 0 else 1)
    ensures Swapped(Xor32(swap, b) as int, Swapped(swap as int, s)) == Swapped(b as int, s)
  {
    assert Xor(swap as int / 2, b as int / 2) == 0;
  }

  ghost predicate Separate(x1: array<int32>, x2: array<int32>, z2: array<int32>, x3: array<int32>,
                           z3: array<int32>, tmp0: array<int32>, tmp1: array<int32>) {
    Distinct(x2, z2, x3, z3, tmp0, tmp1) && x1 !in {x2, z2, x3, z3, tmp0, tmp1}
  }

  /** One iteration of the loop, for the bit b at pos; a swap is pending before and after. */
  method Iteration(x1: array<int32>, x2: array<int32>, z2: array<int32>, x3: array<int32>, z3: array<int32>,
                   tmp0: array<int32>, tmp1: array<int32>, swap: int32,
                   e: seq<uint8>, ghost u: int, ghost climb: nat -> Rungs, pos: nat) returns (b: int32)
    requires tmp0.Length == tmp1.Length == 10 && Separate(x1, x2, z2, x3, z3, tmp0, tmp1)
    requires pos < 255 && IsClimb(climb, u, e) && (swap == 0 || swap == 1)
    requires Holds(x1, u, 110) && HoldRungs(x2, z2, x3, z3, Swapped(swap as int, climb(254 - pos)))
    modifies x2, z2, x3, z3, tmp0, tmp1
    ensures b == 0 || b == 1
    ensures HoldRungs(x2, z2, x3, z3, Swapped(b as int, climb(255 - pos)))
  {
    ghost var n := 254 - pos;
    b := BitAt(e, pos);
    SwapTwice(swap, b, climb(n));
    SwapRungs(x2, z2, x3, z3, Xor32(swap, b), Swapped(swap as int, climb(n)));
    Round(x1, x2, z2, x3, z3, tmp0, tmp1, u, Swapped(b as int, climb(n)));
    assert Next(climb, n) == climb(n + 1);
  }

  /** All 255 iterations and the last swap. */
  method Ladder(x1: array<int32>, x2: array<int32>, z2: array<int32>, x3: array<int32>, z3: array<int32>,
                tmp0: array<int32>, tmp1: array<int32>, e: seq<uint8>, ghost u: int, ghost climb: nat -> Rungs)
    requires tmp0.Length == tmp1.Length == 10 && Separate(x1, x2, z2, x3, z3, tmp0, tmp1)
    requires IsClimb(climb, u, e)
    requires Holds(x1, u, 110) && HoldRungs(x2, z2, x3, z3, climb(0))
    modifies x2, z2, x3, z3, tmp0, tmp1
    ensures HoldRungs(x2, z2, x3, z3, climb(255))
  {
    var swap: int32 := 0;
    for pos := 255 downto 0
      invariant swap == 0 || swap == 1
      invariant Holds(x1, u, 110)
      invariant HoldRungs(x2, z2, x3, z3, Swapped(swap as int, climb(255 - pos)))
    {
      swap := Iteration(x1, x2, z2, x3, z3, tmp0, tmp1, swap, e, u, climb, pos);
    }
    SwapRungs(x2, z2, x3, z3, swap, Swapped(swap as int, climb(255)));
  }

  /** The initial rungs: (1 : 0) and (u : 1). */
  method Setup(x1: array<int32>, x2: array<int32>, z2: array<int32>, x3: array<int32>, z3: array<int32>,
               point: seq<uint8>, ghost u: int)
    requires x1.Length == x2.Length == z2.Length == x3.Length == z3.Length == 10 && |point| == 32
    requires x1 !in {x2, z2, x3, z3} && x2 !in {z2, x3, z3} && z2 !in {x3, z3} && x3 != z3
    requires u == LittleEndian(point) % TWO255 % Zp.P
    modifies x1, x2, z2, x3, z3
    ensures Holds(x1, u, 110) && HoldRungs(x2, z2, x3, z3, Rungs(1, 0, u, 1))
  {
    FeFromBytes(x1, point);
    Fe1(x2);
    Fe0(z2);
    FeCopy(x3, x1);
    Fe1(z3);
  }

  /** out = x2 / z2, with division by zero giving zero. */
  method Finish(out: array<uint8>, x2: array<int32>, z2: array<int32>, ghost s: Rungs)
    requires out.Length == 32 && x2 != z2
    requires Holds(x2, s.x2, 110) && Holds(z2, s.z2, 110)
    modifies out, x2, z2
    ensures LittleEndian(out[..]) == Zp.Mul(s.x2, Zp.Pow(s.z2, Zp.P - 2))
  {
    FeInvert(z2, z2);
    FeMul(x2, x2, z2);
    FeToBytes(out, x2);
  }

  method Compute(out: array<uint8>, x1: array<int32>, x2: array<int32>, z2: array<int32>, x3: array<int32>,
                 z3: array<int32>, tmp0: array<int32>, tmp1: array<int32>, e: seq<uint8>, point: seq<uint8>,
                 ghost u: int, ghost climb: nat -> Rungs)
    requires x1.Length == x2.Length == z2.Length == x3.Length == z3.Length == tmp0.Length == tmp1.Length == 10
    requires Separate(x1, x2, z2, x3, z3, tmp0, tmp1)
    requires out.Length == |point| == 32 && u == LittleEndian(point) % TWO255 % Zp.P && IsClimb(climb, u, e)
    modifies out, x1, x2, z2, x3, z3, tmp0, tmp1
    ensures LittleEndian(out[..]) == Zp.Mul(climb(255).x2, Zp.Pow(climb(255).z2, Zp.P - 2))
  {
    Setup(x1, x2, z2, x3, z3, point, u);
    Ladder(x1, x2, z2, x3, z3, tmp0, tmp1, e, u, climb);
    Finish(out, x2, z2, climb(255));
  }

  /** The rungs for a scalar, and the last of them. */
  lemma Rise(u: int, e: seq<uint8>) returns (climb: nat -> Rungs)
    requires |e| == 32
    ensures IsClimb(climb, u, e) && climb(255) == Climb(u, LittleEndian(e), 255)
  {
    var k := LittleEndian(e);
    climb := (n: nat) => if n <= 255 then Climb(u, ShiftRight(k, 255 - n), n) else Rungs(1, 0, u, 1);
    ClimbIsClimb(climb, u, e);
  }

  /** The same with working variables of its own. */
  method Multiply(out: array<uint8>, e: seq<uint8>, point: seq<uint8>)
    requires out.Length == |e| == |point| == 32
    modifies out
    ensures LittleEndian(out[..]) == ScalarMult(LittleEndian(e), LittleEndian(point) % TWO255)
  {
    var x1, x2, z2 := new int32[10], new int32[10], new int32[10];
    var x3, z3, tmp0, tmp1 := new int32[10], new int32[10], new int32[10], new int32[10];
    ghost var u := LittleEndian(point) % TWO255 % Zp.P;
    ghost var climb := Rise(u, e);
    Compute(out, x1, x2, z2, x3, z3, tmp0, tmp1, e, point, u, climb);
  }

  /** The ladder of the standard, on limbs, for every scalar and point. */
  method ScalarMultiply(out: array<uint8>, scalar: array<uint8>, point: array<uint8>)
    requires out.Length == scalar.Length == point.Length == 32
    modifies out
    ensures LittleEndian(out[..])
         == ScalarMult(Clamp(LittleEndian(old(scalar[..]))), LittleEndian(old(point[..])) % TWO255)
  {
    var e := ClampBytes(scalar[..]);
    Multiply(out, e, point[..]);
  }
}
