/** What base32 text means: symbols in groups with a CRC after each, and the bits they write. */
module Base32Text {
  import opened Common
  import opened Arithmetic
  import opened BitStrings
  import opened Crc5

  // ----- symbols and CRCs

  /** The CRC after these symbols. */
  function Fold(s: seq<Symbol>, crc: Symbol): Symbol {
    if s == [] then crc else Fold(s[1..], Crc(s[0], crc))
  }

  lemma {:induction false} FoldLast(s: seq<Symbol>, x: Symbol, crc: Symbol)
    ensures Fold(s + [x], crc) == Crc(x, Fold(s, crc))
  {
    if s != [] {
      assert (s + [x])[1..] == s[1..] + [x];
      FoldLast(s[1..], x, Crc(s[0], crc));
    } else {
      assert Fold([x][1..], Crc(x, crc)) == Crc(x, crc);
    }
  }

  /** The symbols with a CRC after each full group; every of zero stands for no CRCs. */
  function WithCrc(s: seq<Symbol>, every: nat): seq<Symbol>
    decreases |s|
  {
    if every == 0 || |s| < every then s
    else s[..every] + [Fold(s[..every], 0)] + WithCrc(s[every..], every)
  }

  /** A whole number of groups. */
  ghost predicate Whole(s: seq<Symbol>, every: nat)
    decreases |s|
  {
    every == 0 || s == [] || (|s| >= every && Whole(s[every..], every))
  }

  lemma {:induction false} WholeIsMultiple(s: seq<Symbol>, every: nat)
    requires every > 0
    ensures Whole(s, every) <==> |s| % every == 0
    ensures Whole(s, every) ==> |WithCrc(s, every)| == |s| + |s| / every
    decreases |s|
  {
    if |s| >= every {
      WholeIsMultiple(s[every..], every);
      OneGroupLess(|s|, every);
    }
  }

  lemma OneGroupLess(n: nat, k: nat)
    requires 0 < k <= n
    ensures (n - k) % k == n % k && (n - k) / k == n / k - 1
  {
    var q, r := n / k, n % k;
    assert n - k == (q - 1) * k + r;
    assert q >= 1;
    Quotient(n - k, k, q - 1, r);
  }

  lemma {:induction false} WithCrcAppend(s: seq<Symbol>, t: seq<Symbol>, every: nat)
    requires Whole(s, every)
    ensures WithCrc(s + t, every) == WithCrc(s, every) + WithCrc(t, every)
    ensures Whole(t, every) ==> Whole(s + t, every)
    decreases |s|
  {
    if s == [] {
      assert s + t == t && WithCrc(s, every) == [];
    } else if every > 0 {
      assert (s + t)[..every] == s[..every] && (s + t)[every..] == s[every..] + t;
      WithCrcAppend(s[every..], t, every);
    }
  }

  /** A full group on its own. */
  lemma OneGroup(s: seq<Symbol>, every: nat)
    requires |s| == every > 0
    ensures WithCrc(s, every) == s + [Fold(s, 0)] && Whole(s, every)
  {
    assert s[..every] == s && s[every..] == [];
  }

  // ----- reading symbols back

  /** The symbols without their CRCs, from a state within a group on; negative numbers stand for
      characters outside the alphabet.  None if one is found, a CRC differs, or a group is not full. */
  ghost function Parse(s: seq<int>, every: nat, crc: Symbol, count: nat): Option<seq<Symbol>> {
    if s == [] then (if every > 0 && count > 0 then None else Some([]))
    else if !(0 <= s[0] < 32) then None
    else if every > 0 && count == every then
      (if s[0] != crc then None else Parse(s[1..], every, 0, 0))
    else if every > 0 then Glue([s[0]], Parse(s[1..], every, Crc(s[0], crc), count + 1))
    else Glue([s[0]], Parse(s[1..], every, crc, count))
  }

  ghost function Glue(s: seq<Symbol>, rest: Option<seq<Symbol>>): Option<seq<Symbol>> {
    if rest.None? then None else Some(s + rest.value)
  }

  lemma GlueTwice(x: Symbol, s: seq<Symbol>, rest: Option<seq<Symbol>>)
    ensures Glue([x], Glue(s, rest)) == Glue([x] + s, rest)
  {
    if rest.Some? {
      assert [x] + (s + rest.value) == [x] + s + rest.value;
    }
  }

  lemma ParseOne(x: Symbol, t: seq<int>, every: nat, crc: Symbol, count: nat)
    ensures count < every ==> Parse([x] + t, every, crc, count) == Glue([x], Parse(t, every, Crc(x, crc), count + 1))
    ensures count == every > 0 && x == crc ==> Parse([x] + t, every, crc, count) == Parse(t, every, 0, 0)
  {
    assert ([x] + t)[1..] == t;
  }

  lemma {:induction false} ParseGroup(s: seq<Symbol>, rest: seq<int>, every: nat, crc: Symbol, count: nat)
    requires every > 0 && count + |s| == every
    ensures Parse(s + ([Fold(s, crc)] + rest), every, crc, count) == Glue(s, Parse(rest, every, 0, 0))
    decreases |s|
  {
    if s == [] {
      ParseOne(crc, rest, every, crc, count);
      assert s + ([crc] + rest) == [crc] + rest;
      GlueNothing(Parse(rest, every, 0, 0));
    } else {
      var t := s[1..] + ([Fold(s, crc)] + rest);
      Rotate(s, [Fold(s, crc)] + rest);
      ParseOne(s[0], t, every, crc, count);
      ParseGroup(s[1..], rest, every, Crc(s[0], crc), count + 1);
      GlueTwice(s[0], s[1..], Parse(rest, every, 0, 0));
    }
  }

  lemma GlueNothing(rest: Option<seq<Symbol>>)
    ensures Glue([], rest) == rest
  {
    if rest.Some? {
      assert [] + rest.value == rest.value;
    }
  }

  lemma Rotate<T>(s: seq<T>, t: seq<T>)
    requires s != []
    ensures s + t == [s[0]] + (s[1..] + t) && [s[0]] + s[1..] == s
  {
  }

  /** Reading undoes adding the CRCs. */
  lemma {:induction false} ParseWithCrc(s: seq<Symbol>, every: nat)
    requires Whole(s, every)
    ensures Parse(WithCrc(s, every), every, 0, 0) == Some(s)
    decreases |s|
  {
    if every == 0 {
      ParsePlain(s);
    } else if s != [] {
      ParseWithCrc(s[every..], every);
      ParseFirstGroup(s[..every], WithCrc(s[every..], every), every, s[every..]);
      assert s[..every] + s[every..] == s;
    }
  }

  lemma ParseFirstGroup(group: seq<Symbol>, rest: seq<Symbol>, every: nat, d: seq<Symbol>)
    requires |group| == every > 0 && Parse(rest, every, 0, 0) == Some(d)
    ensures Parse(group + [Fold(group, 0)] + rest, every, 0, 0) == Some(group + d)
  {
    ParseGroup(group, rest, every, 0, 0);
    assert group + [Fold(group, 0)] + rest == group + ([Fold(group, 0)] + rest);
  }

  lemma {:induction false} ParsePlain(s: seq<Symbol>)
    ensures Parse(s, 0, 0, 0) == Some(s)
  {
    if s != [] {
      ParsePlain(s[1..]);
      assert [s[0]] + s[1..] == s;
    }
  }

  /** Only symbols with their CRCs are read. */
  lemma {:induction false} ParseOnlyWithCrc(s: seq<int>, every: nat, group: seq<Symbol>, d: seq<Symbol>)
    requires every > 0 && |group| <= every
    requires Parse(s, every, Fold(group, 0), |group|) == Some(d)
    ensures group + s == WithCrc(group + d, every) && Whole(group + d, every)
    decreases |s|
  {
    if s == [] {
      assert d == [] && group == [];
    } else if |group| == every {
      ParseOnlyWithCrc(s[1..], every, [], d);
      GroupClosed(s, every, group, d);
    } else {
      FoldLast(group, s[0], 0);
      var rest := Parse(s[1..], every, Fold(group + [s[0]], 0), |group| + 1).value;
      ParseOnlyWithCrc(s[1..], every, group + [s[0]], rest);
      Move(group, s);
      Move(group, d);
    }
  }

  lemma Move<T>(a: seq<T>, b: seq<T>)
    requires b != []
    ensures a + [b[0]] + b[1..] == a + b
  {
  }

  lemma GroupClosed(s: seq<int>, every: nat, group: seq<Symbol>, d: seq<Symbol>)
    requires |group| == every > 0 && s != [] && s[0] == Fold(group, 0)
    requires [] + s[1..] == WithCrc([] + d, every) && Whole([] + d, every)
    ensures group + s == WithCrc(group + d, every) && Whole(group + d, every)
  {
    assert [] + s[1..] == s[1..] && [] + d == d;
    OneGroup(group, every);
    WithCrcAppend(group, d, every);
    Move(group, s);
  }

  /** With CRCs, what is read is exactly what was written. */
  lemma ParseIsInverse(s: seq<int>, every: nat, d: seq<Symbol>)
    requires every > 0
    ensures Parse(s, every, 0, 0) == Some(d) <==> Whole(d, every) && s == WithCrc(d, every)
  {
    if Parse(s, every, 0, 0) == Some(d) {
      ParseOnlyWithCrc(s, every, [], d);
      assert [] + s == s && [] + d == d;
    }
    if Whole(d, every) {
      ParseWithCrc(d, every);
    }
  }

  // ----- damage

  /** Once the CRC of a group is off, the group's end shows it. */
  lemma {:induction false} DamageShows(s: seq<int>, every: nat, p: Symbol, q: Symbol, count: nat)
    requires every > 0 && 0 < count && p != q
    ensures Parse(s, every, p, count).None? || Parse(s, every, q, count).None?
    decreases |s|
  {
    if s != [] && 0 <= s[0] < 32 && count != every {
      CrcDetectsChange(s[0], s[0], p, q);
      DamageShows(s[1..], every, Crc(s[0], p), Crc(s[0], q), count + 1);
    }
  }

  /** One symbol replaced by another is always found. */
  lemma {:induction false} OneSymbolDetected(s: seq<int>, every: nat, crc: Symbol, count: nat, k: nat, x: Symbol)
    requires every > 0 && k < |s| && x != s[k]
    requires Parse(s, every, crc, count).Some?
    ensures Parse(s[k := x], every, crc, count).None?
    decreases |s|
  {
    if k > 0 {
      assert s[k := x][1..] == s[1..][k - 1 := x];
      if count == every {
        OneSymbolDetected(s[1..], every, 0, 0, k - 1, x);
      } else {
        OneSymbolDetected(s[1..], every, Crc(s[0], crc), count + 1, k - 1, x);
      }
    } else if count != every {
      assert s[0 := x][1..] == s[1..];
      CrcDetectsChange(s[0], x, crc, crc);
      DamageShows(s[1..], every, Crc(s[0], crc), Crc(x, crc), count + 1);
    }
  }

  function Swapped(s: seq<int>, k: nat): seq<int>
    requires k + 1 < |s|
  {
    s[k := s[k + 1]][k + 1 := s[k]]
  }

  /** Position k of the text holds a symbol or CRC of the same group as the next. */
  ghost predicate SameGroup(every: nat, count: nat, k: nat)
    requires every > 0 && count <= every
    decreases k
  {
    if k == 0 then count < every else SameGroup(every, if count == every then 0 else count + 1, k - 1)
  }

  /** Two different neighbours in the wrong order within a group are always found. */
  lemma {:induction false} SwapDetected(s: seq<int>, every: nat, crc: Symbol, count: nat, k: nat)
    requires every > 0 && count <= every && k + 1 < |s| && s[k] != s[k + 1] && SameGroup(every, count, k)
    requires Parse(s, every, crc, count).Some?
    ensures Parse(Swapped(s, k), every, crc, count).None?
    decreases |s|
  {
    var t := Swapped(s, k);
    if k > 0 {
      assert t[1..] == Swapped(s[1..], k - 1);
      if count == every {
        SwapDetected(s[1..], every, 0, 0, k - 1);
      } else {
        SwapDetected(s[1..], every, Crc(s[0], crc), count + 1, k - 1);
      }
    } else {
      var a, b := s[0], s[1];
      assert s[1..][0] == b && t[1..][0] == a && t[1..][1..] == s[1..][1..];
      if count + 1 == every {
        CrcDetectsSwap(a, crc);
      } else {
        CrcDetectsOrder(a, b, crc);
        DamageShows(s[1..][1..], every, Crc(b, Crc(a, crc)), Crc(a, Crc(b, crc)), count + 2);
      }
    }
  }

  // ----- symbols as bits

  /** Symbol j holds bits 5j to 5j + 4 of the data, padded with zeros. */
  function Symbols(data: seq<bool>): (s: seq<Symbol>)
    ensures |s| == (|data| + 4) / 5
  {
    seq((|data| + 4) / 5, j requires 0 <= j < (|data| + 4) / 5 => SymbolAt(data, j))
  }

  function SymbolAt(data: seq<bool>, j: nat): Symbol
    requires 5 * j < |data|
  {
    FiveBits((data + Zeros(4))[5 * j..5 * j + 5]);
    Val((data + Zeros(4))[5 * j..5 * j + 5])
  }

  lemma FiveBits(s: seq<bool>)
    requires |s| == 5
    ensures Val(s) < 32
  {
    ValBelow(s);
  }

  /** The symbols write the data, and padding after it. */
  lemma SymbolsWrite(data: seq<bool>)
    ensures |Spread(Symbols(data), 5)| >= |data| && Spread(Symbols(data), 5)[..|data|] == data
  {
    var s := Symbols(data);
    SpreadLength(s, 5);
    forall i | 0 <= i < |data|
      ensures Spread(s, 5)[i] == data[i]
    {
      BitOfSymbol(data, i / 5, i);
    }
  }

  lemma BitOfSymbol(data: seq<bool>, j: nat, i: nat)
    requires 5 * j <= i < 5 * j + 5 && i < |data| <= |Spread(Symbols(data), 5)|
    ensures Spread(Symbols(data), 5)[i] == data[i]
  {
    var r, chunk := Spread(Symbols(data), 5), (data + Zeros(4))[5 * j..5 * j + 5];
    SpreadAt(Symbols(data), 5, j, 5 * j);
    BitsOfVal(chunk);
    assert r[i] == r[5 * j..5 * j + 5][i - 5 * j];
    assert chunk[i - 5 * j] == data[i];
  }
}
