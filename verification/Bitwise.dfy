/** Powers of two and bitwise operations on two's complement integers of any width. */
module Bitwise {
  import opened Arithmetic

  type pos = x: nat | x >= 1 witness 1

  function TwoTo(k: nat): pos { if k == 0 then 1 else 2 * TwoTo(k - 1) }

  lemma {:induction false} TwoToAdd(m: nat, n: nat)
    ensures TwoTo(m + n) == TwoTo(m) * TwoTo(n)
  {
    if m > 0 {
      TwoToAdd(m - 1, n);
      Twice(TwoTo(m - 1), TwoTo(n));
    }
  }

  lemma TwoToSum(m: nat, n: nat, a: nat, b: nat)
    requires TwoTo(m) == a && TwoTo(n) == b
    ensures TwoTo(m + n) == a * b
  {
    TwoToAdd(m, n);
  }

  lemma Twice(a: int, b: int)
    ensures 2 * a * b == 2 * (a * b)
  {
  }

  /** Distance from 0 or -1, whose two's complement bits are all equal. */
  ghost function Size(a: int): nat { if a < 0 then -1 - a else a }

  /** Bitwise exclusive or and conjunction of two's complement numbers. */
  function Xor(a: int, b: int): (r: int)
    decreases Size(a) + Size(b)
  {
    if -1 <= a <= 0 && -1 <= b <= 0 then (if a == b then 0 else -1)
    else (if a % 2 == b % 2 then 0 else 1) + 2 * Xor(a / 2, b / 2)
  }

  function And(a: int, b: int): (r: int)
    decreases Size(a) + Size(b)
  {
    if -1 <= a <= 0 && -1 <= b <= 0 then (if a == b then a else 0)
    else (if a % 2 == 1 && b % 2 == 1 then 1 else 0) + 2 * And(a / 2, b / 2)
  }

  lemma XorStep(a: int, b: int)
    ensures Xor(a, b) == (if a % 2 == b % 2 then 0 else 1) + 2 * Xor(a / 2, b / 2)
  {
  }

  lemma {:induction false} XorCancels(a: int, b: int, r: int)
    requires r == Xor(a, b)
    ensures Xor(a, r) == b
    decreases Size(a) + Size(b)
  {
    if -1 <= a <= 0 && -1 <= b <= 0 {
    } else {
      XorStep(a, b);
      XorStep(a, r);
      XorCancels(a / 2, b / 2, r / 2);
    }
  }

  lemma {:induction false} XorCommutes(a: int, b: int)
    ensures Xor(a, b) == Xor(b, a)
    decreases Size(a) + Size(b)
  {
    if !(-1 <= a <= 0 && -1 <= b <= 0) {
      XorCommutes(a / 2, b / 2);
    }
  }

  lemma {:induction false} ZeroAndOnes(a: int)
    ensures Xor(a, 0) == a && And(a, 0) == 0 && And(a, -1) == a
    decreases Size(a)
  {
    if !(-1 <= a <= 0) {
      ZeroAndOnes(a / 2);
    }
  }

  lemma {:induction false} XorRange(a: int, b: int, k: nat)
    requires Size(a) < TwoTo(k) && Size(b) < TwoTo(k)
    ensures Size(Xor(a, b)) < TwoTo(k)
    decreases k
  {
    if k > 0 {
      XorRange(a / 2, b / 2, k - 1);
    }
  }

  function Or(a: int, b: int): (r: int)
    decreases Size(a) + Size(b)
  {
    if -1 <= a <= 0 && -1 <= b <= 0 then (if a == b then a else -1)
    else (if a % 2 == 1 || b % 2 == 1 then 1 else 0) + 2 * Or(a / 2, b / 2)
  }

  lemma OrStep(a: int, b: int)
    ensures Or(a, b) == (if a % 2 == 1 || b % 2 == 1 then 1 else 0) + 2 * Or(a / 2, b / 2)
  {
  }

  lemma {:induction false} OrZero(a: int)
    ensures Or(a, 0) == a
    decreases Size(a)
  {
    if !(-1 <= a <= 0) {
      OrZero(a / 2);
    }
  }

  /** Numbers without a common bit add up. */
  lemma {:induction false} OrDisjoint(a: nat, b: nat, k: nat)
    requires b < TwoTo(k)
    ensures Or(a * TwoTo(k), b) == a * TwoTo(k) + b
    decreases k
  {
    if k == 0 {
      OrZero(a);
    } else {
      var half := a * TwoTo(k - 1);
      assert a * TwoTo(k) == 2 * half;
      OrDisjoint(a, b / 2, k - 1);
      OrStep(2 * half, b);
    }
  }

  lemma AndStep(a: int, b: int)
    ensures And(a, b) == (if a % 2 == 1 && b % 2 == 1 then 1 else 0) + 2 * And(a / 2, b / 2)
  {
  }

  /** A mask of the low k bits is a remainder. */
  lemma {:induction false} AndLow(a: nat, k: nat)
    ensures And(a, TwoTo(k) - 1) == a % TwoTo(k)
    decreases k
  {
    if k == 0 {
      ZeroAndOnes(a);
    } else {
      AndLow(a / 2, k - 1);
      AndStep(a, 2 * TwoTo(k - 1) - 1);
      RemainderStep(a, TwoTo(k - 1));
    }
  }

  lemma RemainderStep(a: nat, c: nat)
    requires c >= 1
    ensures a % (2 * c) == a % 2 + 2 * (a / 2 % c)
  {
    var q, r := a / 2 / c, a % 2 + 2 * (a / 2 % c);
    assert a / 2 == q * c + a / 2 % c;
    assert a == q * (2 * c) + r;
    Quotient(a, 2 * c, q, r);
  }

  /** A mask of the bits from k on clears those below. */
  lemma {:induction false} AndHigh(a: nat, m: nat, k: nat, mask: nat)
    requires mask == m * TwoTo(k)
    ensures And(a, mask) == And(a / TwoTo(k), m) * TwoTo(k)
    decreases k
  {
    if k > 0 {
      var half := m * TwoTo(k - 1);
      MoveTwo(m, TwoTo(k - 1));
      AndEven(a, half);
      AndHigh(a / 2, m, k - 1, half);
      DivideStep(a, TwoTo(k - 1));
      MoveTwo(And(a / TwoTo(k), m), TwoTo(k - 1));
    }
  }

  lemma AndEven(a: nat, half: nat)
    ensures And(a, 2 * half) == 2 * And(a / 2, half)
  {
    AndStep(a, 2 * half);
    assert 2 * half / 2 == half && 2 * half % 2 == 0;
  }

  lemma MoveTwo(a: int, b: int)
    ensures a * (2 * b) == 2 * (a * b)
  {
  }

  lemma DivideStep(a: nat, c: nat)
    requires c >= 1
    ensures a / (2 * c) == a / 2 / c
  {
    RemainderStep(a, c);
    assert a / 2 == a / 2 / c * c + a / 2 % c;
    Quotient(a, 2 * c, a / 2 / c, a % 2 + 2 * (a / 2 % c));
  }
}
