/** Arithmetic modulo p = 2^255 - 19, the field of curve25519 (RFC 7748, section 4.1).
    Elements are represented by their least non-negative residue. */
module Zp {
  const P: int := 0x7fff_ffff_ffff_ffff_ffff_ffff_ffff_ffff_ffff_ffff_ffff_ffff_ffff_ffff_ffff_ffed

  function Add(a: int, b: int): int { (a + b) % P }

  function Sub(a: int, b: int): int { (a - b) % P }

  function Mul(a: int, b: int): int { (a * b) % P }

  function Sq(a: int): int { Mul(a, a) }

  /** b^e modulo p. */
  ghost function Pow(b: int, e: nat): (r: int)
    ensures 0 <= r < P
  {
    if e == 0 then 1 else Mul(b, Pow(b, e - 1))
  }

  // ----- congruence

  lemma Shift(a: int, k: int)
    ensures (a + P * k) % P == a % P
  {
  }

  /** A value that differs from a by a multiple of p has the same residue. */
  lemma Congruent(a: int, b: int, k: int)
    requires a == b + P * k
    ensures a % P == b % P
  {
    Shift(b, k);
  }

  lemma AddResidues(a: int, b: int)
    ensures (a + b) % P == Add(a % P, b % P)
  {
    Congruent(a + b, a % P + b % P, a / P + b / P);
  }

  lemma SubResidues(a: int, b: int)
    ensures (a - b) % P == Sub(a % P, b % P)
  {
    Congruent(a - b, a % P - b % P, a / P - b / P);
  }

  lemma MulResidues(a: int, b: int)
    ensures (a * b) % P == Mul(a % P, b % P)
  {
    var qa, ra, qb, rb := a / P, a % P, b / P, b % P;
    calc {
      a * b;
      (ra + P * qa) * (rb + P * qb);
      ra * rb + P * (qa * rb + ra * qb + P * qa * qb);
    }
    Congruent(a * b, ra * rb, qa * rb + ra * qb + P * qa * qb);
  }

  lemma AbsorbLeft(a: int, b: int)
    ensures Mul(a % P, b) == Mul(a, b)
  {
    assert a * b == (a % P + P * (a / P)) * b == (a % P) * b + P * (a / P * b);
    Congruent(a * b, (a % P) * b, a / P * b);
  }

  lemma MulAssoc(a: int, b: int, c: int)
    ensures Mul(Mul(a, b), c) == Mul(a, Mul(b, c))
  {
    AbsorbLeft(a * b, c);
    AbsorbLeft(b * c, a);
    Regroup(a, b, c);
  }

  lemma Regroup(a: int, b: int, c: int)
    ensures (a * b) * c == (b * c) * a
  {
  }

  // ----- powers

  lemma MulOne(a: int)
    requires 0 <= a < P
    ensures Mul(1, a) == a
  {
  }

  lemma {:induction false} PowAdd(b: int, m: nat, n: nat)
    ensures Mul(Pow(b, m), Pow(b, n)) == Pow(b, m + n)
  {
    if m == 0 {
      MulOne(Pow(b, n));
    } else {
      PowAdd(b, m - 1, n);
      MulAssoc(b, Pow(b, m - 1), Pow(b, n));
    }
  }
}
