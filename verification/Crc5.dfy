/** The CRC-5 of symbols, one table step a symbol. */
module Crc5 {
  const TABLE1: seq<bv8> := [
    0x00, 0x0E, 0x1C, 0x12, 0x11, 0x1F, 0x0D, 0x03,
    0x0B, 0x05, 0x17, 0x19, 0x1A, 0x14, 0x06, 0x08
  ]

  const TABLE0: seq<bv8> := [
    0x00, 0x16, 0x05, 0x13, 0x0A, 0x1C, 0x0F, 0x19,
    0x14, 0x02, 0x11, 0x07, 0x1E, 0x08, 0x1B, 0x0D
  ]

  lemma Nibble(x: bv8)
    ensures (x & 0xF) as nat < 16 && ((x >> 4) & 0xF) as nat < 16
  {
  }

  function Table(x: bv8): bv8 {
    Nibble(x);
    TABLE1[(x & 0xF) as nat] ^ TABLE0[((x >> 4) & 0xF) as nat]
  }

  /** crc5_sym */
  function Crc5Sym(sym: bv8, previous: bv8): bv8 { Table(sym ^ previous) }

  // ----- the table is linear

  /** The exclusive or of the table values of single bits, for those set in x. */
  function Linear(x: bv8): bv8 {
    (if x & 1 == 0 then 0 else 0x0E) ^ (if x & 2 == 0 then 0 else 0x1C) ^ (if x & 4 == 0 then 0 else 0x11)
    ^ (if x & 8 == 0 then 0 else 0x0B) ^ (if x & 16 == 0 then 0 else 0x16)
  }

  lemma Table1IsLinear(k: bv8)
    requires k < 16
    ensures k as nat < 16 && TABLE1[k as nat] == Linear(k)
  {
  }

  lemma TableIsLinear(x: bv8)
    requires x < 32
    ensures Table(x) == Linear(x)
  {
    Table1IsLinear(x & 0xF);
    assert TABLE0[0] == 0 && TABLE0[1] == 0x16;
    assert (x >> 4) & 0xF == if x & 16 == 0 then 0 else 1;
    HighNibble(x, TABLE1[(x & 0xF) as nat]);
  }

  lemma HighNibble(x: bv8, t: bv8)
    requires x < 32 && t == Linear(x & 0xF)
    ensures t ^ (if x & 16 == 0 then 0 else 0x16) == Linear(x)
  {
  }

  lemma LinearSum(x: bv8, y: bv8)
    requires x < 32 && y < 32
    ensures Linear(x) < 32 && x ^ y < 32 && Linear(x ^ y) == Linear(x) ^ Linear(y)
  {
  }

  /** The table takes no symbol to itself or to zero but zero. */
  lemma LinearMoves(x: bv8)
    requires 0 < x < 32
    ensures Linear(x) != 0 && Linear(x) != x
  {
  }

  // ----- what the code detects

  lemma CrcIsSymbol(sym: bv8, previous: bv8)
    requires sym < 32 && previous < 32
    ensures Crc5Sym(sym, previous) < 32 && Crc5Sym(sym, previous) == Linear(sym) ^ Linear(previous)
  {
    LinearSum(sym, previous);
    TableIsLinear(sym ^ previous);
  }

  lemma LinearInjective(x: bv8, y: bv8)
    requires x < 32 && y < 32 && x != y
    ensures Linear(x) != Linear(y)
  {
  }

  /** For one CRC, different symbols lead to different CRCs; for one symbol, different CRCs do. */
  lemma CrcInjective(a: bv8, b: bv8, p: bv8, q: bv8)
    requires a < 32 && b < 32 && p < 32 && q < 32 && (a == b) != (p == q)
    ensures Crc5Sym(a, p) != Crc5Sym(b, q)
  {
    CrcIsSymbol(a, p);
    CrcIsSymbol(b, q);
    if a == b {
      LinearInjective(p, q);
    } else {
      LinearInjective(a, b);
    }
  }

  lemma TwiceMoved(x: bv8, y: bv8)
    requires x < 32 && y < 32 && x != y
    ensures Linear(x) ^ Linear(y) != x ^ y
  {
    LinearSum(x, y);
    LinearMoves(x ^ y);
  }

  /** Symbols in the wrong order lead to another CRC. */
  lemma CrcOrdered(a: bv8, b: bv8, p: bv8)
    requires a < 32 && b < 32 && p < 32 && a != b
    ensures Crc5Sym(b, Crc5Sym(a, p)) != Crc5Sym(a, Crc5Sym(b, p))
  {
    var c, d := Crc5Sym(a, p), Crc5Sym(b, p);
    CrcDifference(a, p, b, p);
    CrcDifference(b, c, a, d);
    Different(a, b, p, c, d, Crc5Sym(b, c), Crc5Sym(a, d));
  }

  lemma CrcDifference(a: bv8, p: bv8, b: bv8, q: bv8)
    requires a < 32 && b < 32 && p < 32 && q < 32
    ensures Crc5Sym(a, p) < 32 && Crc5Sym(b, q) < 32
    ensures Crc5Sym(a, p) ^ Crc5Sym(b, q) == Linear((a ^ p) ^ (b ^ q))
  {
    CrcIsLinear(a, p);
    CrcIsLinear(b, q);
    LinearDifference(Crc5Sym(a, p), Crc5Sym(b, q), a ^ p, b ^ q, (a ^ p) ^ (b ^ q));
  }

  lemma CrcIsLinear(sym: bv8, previous: bv8)
    requires sym < 32 && previous < 32
    ensures Crc5Sym(sym, previous) < 32 && Crc5Sym(sym, previous) == Linear(sym ^ previous)
  {
    CrcIsSymbol(sym, previous);
    LinearSum(sym, previous);
  }

  lemma Different(a: bv8, b: bv8, p: bv8, c: bv8, d: bv8, r: bv8, s: bv8)
    requires a < 32 && b < 32 && p < 32 && c < 32 && d < 32 && a != b
    requires c ^ d == Linear((a ^ p) ^ (b ^ p)) && r ^ s == Linear((b ^ c) ^ (a ^ d))
    ensures r != s
  {
    TwoSteps(a ^ b, c ^ d, (a ^ p) ^ (b ^ p), (b ^ c) ^ (a ^ d));
  }

  lemma LinearDifference(r: bv8, s: bv8, x: bv8, y: bv8, z: bv8)
    requires x < 32 && y < 32 && r == Linear(x) && s == Linear(y) && z == x ^ y
    ensures r ^ s == Linear(z)
  {
    LinearSum(x, y);
  }

  lemma TwoSteps(e: bv8, f: bv8, g: bv8, h: bv8)
    requires 0 < e < 32 && g == e && f == Linear(g) && h == e ^ f
    ensures Linear(h) != 0
  {
    LinearMoves(e);
    LinearSum(e, e);
    LinearMoves(h);
  }

  /** A symbol and the CRC after it in the wrong order do not match. */
  lemma CrcNotSwapped(a: bv8, p: bv8)
    requires a < 32 && p < 32 && Crc5Sym(a, p) != a
    ensures Crc5Sym(Crc5Sym(a, p), p) != a
  {
    var c := Crc5Sym(a, p);
    CrcIsSymbol(a, p);
    CrcOfCrc(c, a, p, Linear(p));
  }

  lemma CrcOfCrc(c: bv8, a: bv8, p: bv8, w: bv8)
    requires c < 32 && a < 32 && p < 32 && w == Linear(p) && c == Linear(a) ^ w && c != a
    ensures Crc5Sym(c, p) != a
  {
    CrcIsSymbol(c, p);
    TwiceMoved(a, c);
  }

  // ----- symbols as numbers

  type Symbol = x: nat | x < 32

  lemma Convert(x: Symbol)
    ensures x as bv8 < 32 && x as bv8 as nat == x
  {
  }

  lemma ConvertBack(b: bv8)
    requires b < 32
    ensures b as nat < 32
  {
  }

  function Crc(sym: Symbol, previous: Symbol): Symbol {
    Convert(sym);
    Convert(previous);
    CrcIsSymbol(sym as bv8, previous as bv8);
    ConvertBack(Crc5Sym(sym as bv8, previous as bv8));
    Crc5Sym(sym as bv8, previous as bv8) as nat
  }

  lemma ConvertInjective(x: Symbol, y: Symbol)
    requires x != y
    ensures x as bv8 != y as bv8
  {
  }

  lemma BackInjective(b: bv8, c: bv8)
    requires b < 32 && c < 32 && b != c
    ensures b as nat != c as nat && b as nat as bv8 == b
  {
  }

  /** A change of either argument alone changes the CRC. */
  lemma CrcDetectsChange(a: Symbol, b: Symbol, p: Symbol, q: Symbol)
    requires (a == b) != (p == q)
    ensures Crc(a, p) != Crc(b, q)
  {
    if a == b {
      ConvertInjective(p, q);
    } else {
      ConvertInjective(a, b);
    }
    Convert(a);
    Convert(b);
    Convert(p);
    Convert(q);
    var x, y := Crc5Sym(a as bv8, p as bv8), Crc5Sym(b as bv8, q as bv8);
    CrcIsSymbol(a as bv8, p as bv8);
    CrcIsSymbol(b as bv8, q as bv8);
    CrcInjective(a as bv8, b as bv8, p as bv8, q as bv8);
    BackInjective(x, y);
  }

  lemma CrcAsBv(a: Symbol, p: Symbol)
    ensures Crc(a, p) as bv8 == Crc5Sym(a as bv8, p as bv8)
  {
    Convert(a);
    Convert(p);
    CrcIsSymbol(a as bv8, p as bv8);
    var x := Crc5Sym(a as bv8, p as bv8);
    RoundTrip(x);
  }

  lemma RoundTrip(b: bv8)
    requires b < 32
    ensures b as nat as bv8 == b
  {
  }

  lemma CrcDetectsOrder(a: Symbol, b: Symbol, p: Symbol)
    requires a != b
    ensures Crc(b, Crc(a, p)) != Crc(a, Crc(b, p))
  {
    CrcAsBv(a, p);
    CrcAsBv(b, p);
    CrcAsBv(b, Crc(a, p));
    CrcAsBv(a, Crc(b, p));
    Convert(a);
    Convert(b);
    Convert(p);
    ConvertInjective(a, b);
    CrcOrdered(a as bv8, b as bv8, p as bv8);
  }

  lemma CrcDetectsSwap(a: Symbol, p: Symbol)
    requires Crc(a, p) != a
    ensures Crc(Crc(a, p), p) != a
  {
    CrcAsBv(a, p);
    CrcAsBv(Crc(a, p), p);
    Convert(a);
    Convert(p);
    ConvertInjective(a, Crc(a, p));
    CrcNotSwapped(a as bv8, p as bv8);
  }
}
