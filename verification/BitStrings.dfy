/** Strings of bits, most significant first, and the numbers they write. */
module BitStrings {
  import opened Arithmetic
  import opened Bitwise

  function Digit(b: bool): nat { if b then 1 else 0 }

  function Val(s: seq<bool>): nat {
    if s == [] then 0 else 2 * Val(s[..|s| - 1]) + Digit(s[|s| - 1])
  }

  function BitsOf(v: nat, n: nat): (s: seq<bool>)
    ensures |s| == n
  {
    if n == 0 then [] else BitsOf(v / 2, n - 1) + [v % 2 == 1]
  }

  function Zeros(n: nat): (s: seq<bool>)
    ensures |s| == n
  {
    seq(n, _ => false)
  }

  lemma {:induction false} ValBelow(s: seq<bool>)
    ensures Val(s) < TwoTo(|s|)
  {
    if s != [] {
      ValBelow(s[..|s| - 1]);
    }
  }

  lemma {:induction false} ValConcat(a: seq<bool>, b: seq<bool>)
    ensures Val(a + b) == Val(a) * TwoTo(|b|) + Val(b)
  {
    if b == [] {
      assert a + b == a;
    } else {
      var n := |b| - 1;
      ValConcat(a, b[..n]);
      assert (a + b)[..|a + b| - 1] == a + b[..n];
      Regroup(Val(a), TwoTo(n), Val(b[..n]), Digit(b[n]));
    }
  }

  lemma Regroup(a: nat, p: nat, b: nat, d: nat)
    ensures 2 * (a * p + b) + d == a * (2 * p) + (2 * b + d)
  {
  }

  lemma {:induction false} ValZeros(n: nat)
    ensures Val(Zeros(n)) == 0
  {
    if n > 0 {
      ValZeros(n - 1);
      assert Zeros(n)[..n - 1] == Zeros(n - 1);
    }
  }

  lemma {:induction false} ValOfBits(v: nat, n: nat)
    requires v < TwoTo(n)
    ensures Val(BitsOf(v, n)) == v
  {
    if n > 0 {
      ValOfBits(v / 2, n - 1);
      ValNext(BitsOf(v / 2, n - 1), v % 2 == 1);
    }
  }

  lemma ValNext(s: seq<bool>, b: bool)
    ensures Val(s + [b]) == 2 * Val(s) + Digit(b)
  {
    assert (s + [b])[..|s|] == s;
  }

  lemma {:induction false} BitsOfVal(s: seq<bool>)
    ensures BitsOf(Val(s), |s|) == s
  {
    if s != [] {
      BitsOfVal(s[..|s| - 1]);
      assert s == s[..|s| - 1] + [s[|s| - 1]];
    }
  }

  /** Shifting right drops bits, and a mask of low bits keeps them. */
  lemma Split(a: seq<bool>, b: seq<bool>)
    ensures Val(a + b) / TwoTo(|b|) == Val(a) && Val(a + b) % TwoTo(|b|) == Val(b)
  {
    ValConcat(a, b);
    ValBelow(b);
    Quotient(Val(a + b), TwoTo(|b|), Val(a), Val(b));
  }

  /** Bits lo..hi of a number of n bits. */
  lemma Window(v: nat, n: nat, lo: nat, hi: nat)
    requires v < TwoTo(n) && lo <= hi <= n
    ensures v / TwoTo(n - hi) % TwoTo(hi - lo) == Val(BitsOf(v, n)[lo..hi])
  {
    var s := BitsOf(v, n);
    ValOfBits(v, n);
    assert s == s[..hi] + s[hi..] && s[..hi] == s[..lo] + s[lo..hi];
    Split(s[..hi], s[hi..]);
    Split(s[..lo], s[lo..hi]);
  }

  /** The bits of a sequence of numbers of w bits each. */
  ghost function Spread(s: seq<nat>, w: nat): seq<bool> {
    if s == [] then [] else BitsOf(s[0], w) + Spread(s[1..], w)
  }

  lemma {:induction false} SpreadLength(s: seq<nat>, w: nat)
    ensures |Spread(s, w)| == |s| * w
  {
    if s != [] {
      SpreadLength(s[1..], w);
      Plus(|s| - 1, w);
    }
  }

  lemma Plus(k: int, w: int)
    ensures (k + 1) * w == k * w + w
  {
  }

  lemma SpreadCons(a: nat, s: seq<nat>, w: nat)
    ensures Spread([a] + s, w) == BitsOf(a, w) + Spread(s, w)
  {
    assert ([a] + s)[1..] == s;
  }

  lemma {:induction false} SpreadConcat(s: seq<nat>, t: seq<nat>, w: nat)
    ensures Spread(s + t, w) == Spread(s, w) + Spread(t, w)
  {
    if s == [] {
      assert s + t == t;
    } else {
      SpreadConcat(s[1..], t, w);
      Consed(s, t);
      SpreadCons(s[0], s[1..] + t, w);
      Regrouped(BitsOf(s[0], w), Spread(s[1..], w), Spread(t, w));
    }
  }

  lemma Consed<T>(s: seq<T>, t: seq<T>)
    requires s != []
    ensures s + t == [s[0]] + (s[1..] + t)
  {
  }

  lemma Regrouped<T>(a: seq<T>, b: seq<T>, c: seq<T>)
    ensures a + (b + c) == a + b + c
  {
  }

  /** Number k of the sequence takes up w bits from bit k * w on. */
  lemma SpreadAt(s: seq<nat>, w: nat, k: nat, at: nat)
    requires k < |s| && at == k * w
    ensures at + w <= |Spread(s, w)| && Spread(s, w)[at..at + w] == BitsOf(s[k], w)
  {
    var a, c := Spread(s[..k], w), Spread(s[k + 1..], w);
    SpreadLength(s[..k], w);
    assert s[k..][1..] == s[k + 1..];
    SpreadConcat(s[..k], s[k..], w);
    assert s == s[..k] + s[k..];
    Middle(a, BitsOf(s[k], w), c);
  }

  lemma Middle<T>(a: seq<T>, b: seq<T>, c: seq<T>)
    ensures (a + (b + c))[|a|..|a| + |b|] == b
  {
  }

  /** A part of a padded string beyond its end, and one within it. */
  lemma TailChunk(s: seq<bool>, m: nat, i: nat, c: nat)
    requires i <= |s| <= i + c <= |s| + m
    ensures (s + Zeros(m))[i..i + c] == s[i..] + Zeros(i + c - |s|)
  {
  }
}
