/** base32_decode, and that it undoes base32_encode and finds damage. */
module Base32Decode {
  import opened Common
  import opened Bitwise
  import opened BitStrings
  import opened Crc5
  import opened Base32Text
  import opened Base32

  // ----- what a text decodes to

  /** Without CRCs, decoding looks at no more symbols than this. */
  function Needed(destLen: nat): nat { (destLen + 4) / 5 + 1 }

  ghost function Relevant(text: string, destLen: nat, every: nat): seq<int> {
    var s := Syms(text);
    if every == 0 && |s| > Needed(destLen) then s[..Needed(destLen)] else s
  }

  function Min(a: nat, b: nat): nat { if a < b then a else b }

  ghost function FirstBitsOf(d: seq<Symbol>, destLen: nat): (bits: seq<bool>)
    ensures |bits| == Min(5 * |d|, destLen)
  {
    SpreadLength(d, 5);
    Spread(d, 5)[..Min(5 * |d|, destLen)]
  }

  /** There is a symbol that lies beyond the destination. */
  ghost predicate TooLong(d: seq<Symbol>, destLen: nat) { d != [] && 5 * (|d| - 1) >= destLen }

  /** The bits a text decodes to.  With CRCs, a text with a symbol to spare is an error, since the
      break out of the loop leaves a group open. */
  ghost function Decoded(text: string, destLen: nat, every: nat): Option<seq<bool>> {
    var p := Parse(Relevant(text, destLen, every), every, 0, 0);
    if p.None? || (every > 0 && TooLong(p.value, destLen)) then None else Some(FirstBitsOf(p.value, destLen))
  }

  // ----- decoding step by step

  /** The data symbols so far, and the state of the CRC. */
  ghost predicate Decoding(text: string, i: nat, every: nat, crc: Symbol, count: nat, data: seq<Symbol>) {
    && i <= |text| && count <= every
    && (if every == 0 then Syms(text) == data + Syms(text[i..])
        else Parse(Syms(text), every, 0, 0) == Glue(data, Parse(Syms(text[i..]), every, crc, count)))
  }

  lemma SymsStep(text: string, i: nat)
    requires i < |text|
    ensures Syms(text[i..]) == if Separator(text[i]) then Syms(text[i + 1..])
              else [SymOf(text[i])] + Syms(text[i + 1..])
  {
    assert text[i..][1..] == text[i + 1..];
  }

  lemma {:induction false} PlainBad(s: seq<int>, k: nat)
    requires k < |s| && !(0 <= s[k] < 32)
    ensures Parse(s, 0, 0, 0).None?
  {
    if k > 0 {
      PlainBad(s[1..], k - 1);
    }
  }

  lemma BadSymbol(text: string, i: nat, destLen: nat, every: nat, crc: Symbol, count: nat, data: seq<Symbol>)
    requires Decoding(text, i, every, crc, count, data) && !TooLong(data, destLen)
    requires i < |text| && !Separator(text[i]) && SymOf(text[i]) < 0
    ensures Decoded(text, destLen, every).None?
  {
    SymsStep(text, i);
    if every == 0 {
      assert Syms(text)[|data|] == SymOf(text[i]);
      PlainBad(Relevant(text, destLen, every), |data|);
    }
  }

  lemma CrcSymbol(text: string, i: nat, destLen: nat, every: nat, crc: Symbol, data: seq<Symbol>)
    requires every > 0 && Decoding(text, i, every, crc, every, data)
    requires i < |text| && !Separator(text[i])
    ensures SymOf(text[i]) != crc ==> Decoded(text, destLen, every).None?
    ensures SymOf(text[i]) == crc ==> Decoding(text, i + 1, every, 0, 0, data)
  {
    SymsStep(text, i);
    if SymOf(text[i]) == crc {
      ParseOne(crc, Syms(text[i + 1..]), every, crc, every);
    }
  }

  /** The next data symbol. */
  lemma DataSymbol(text: string, i: nat, every: nat, crc: Symbol, count: nat, data: seq<Symbol>, sym: Symbol)
    requires Decoding(text, i, every, crc, count, data) && (every == 0 || count < every)
    requires i < |text| && !Separator(text[i]) && sym == SymOf(text[i])
    ensures every == 0 ==> Decoding(text, i + 1, every, crc, count, data + [sym])
    ensures every > 0 ==> Decoding(text, i + 1, every, Crc(sym, crc), count + 1, data + [sym])
  {
    SymsStep(text, i);
    if every == 0 {
      assert data + [sym] + Syms(text[i + 1..]) == data + ([sym] + Syms(text[i + 1..]));
    } else {
      ParseOne(sym, Syms(text[i + 1..]), every, crc, count);
      GlueLast(data, sym, Parse(Syms(text[i + 1..]), every, Crc(sym, crc), count + 1));
    }
  }

  lemma GlueLast(s: seq<Symbol>, x: Symbol, rest: Option<seq<Symbol>>)
    ensures Glue(s, Glue([x], rest)) == Glue(s + [x], rest)
  {
    if rest.Some? {
      assert s + ([x] + rest.value) == s + [x] + rest.value;
    }
  }

  /** A data symbol when the destination is full: the loop ends here. */
  lemma NoSpace(text: string, i: nat, destLen: nat, every: nat, crc: Symbol, count: nat, data: seq<Symbol>, sym: Symbol)
    requires Decoding(text, i, every, crc, count, data + [sym])
    requires !TooLong(data, destLen) && 5 * |data| >= destLen
    ensures every > 0 ==> Decoded(text, destLen, every).None?
    ensures every == 0 ==> Decoded(text, destLen, every) == Some(FirstBitsOf(data, destLen))
  {
    if every == 0 {
      var s := data + [sym];
      assert Relevant(text, destLen, every) == s;
      ParsePlain(s);
      SpreadConcat(data, [sym], 5);
      SpreadLength(data, 5);
      SpreadLength(s, 5);
      assert FirstBitsOf(s, destLen) == FirstBitsOf(data, destLen);
    }
  }

  lemma Finished(text: string, destLen: nat, every: nat, crc: Symbol, count: nat, data: seq<Symbol>)
    requires Decoding(text, |text|, every, crc, count, data) && !TooLong(data, destLen)
    ensures Decoded(text, destLen, every) == if every > 0 && count > 0 then None else Some(FirstBitsOf(data, destLen))
  {
    assert text[|text|..] == [];
    assert data + [] == data;
    if every == 0 {
      ParsePlain(data);
    }
  }

  /** The bits of one more symbol, as far as they fit. */
  lemma MoreOfThem(data: seq<Symbol>, sym: Symbol, destLen: nat, n: nat)
    requires 5 * |data| < destLen && n == Min(5, destLen - 5 * |data|)
    ensures |FirstBitsOf(data, destLen)| == 5 * |data|
    ensures FirstBitsOf(data + [sym], destLen) == FirstBitsOf(data, destLen) + BitsOf(sym, 5)[..n]
  {
    SpreadConcat(data, [sym], 5);
    SpreadLength(data, 5);
    SpreadLength(data + [sym], 5);
    assert Spread([sym], 5) == BitsOf(sym, 5) + Spread([sym][1..], 5);
  }

  lemma SymbolBits(sym: Symbol, n: nat)
    requires n <= 5
    ensures sym / TwoTo(5 - n) == Val(BitsOf(sym, 5)[..n])
  {
    assert TwoTo(5) == 32;
    ValOfBits(sym, 5);
    ShiftDown(BitsOf(sym, 5), n);
  }

  /** base32_decode, of a text up to its null character. */
  method Decode(dest: array<uint8>, destLen: nat, text: string, every: nat) returns (r: int)
    requires destLen <= 8 * dest.Length && '\0' !in text
    modifies dest
    ensures Decoded(text, destLen, every).None? ==> r == -1
    ensures Decoded(text, destLen, every).Some? ==>
              r == |Decoded(text, destLen, every).value| && HoldsBits(dest[..], Decoded(text, destLen, every).value)
  {
    var crc: Symbol, count, outBits := 0, 0, 0;
    ghost var data: seq<Symbol> := [];
    GlueNothing(Parse(Syms(text), every, 0, 0));
    assert text[0..] == text && [] + Syms(text) == Syms(text);
    var i := 0;
    while i < |text|
      invariant Decoding(text, i, every, crc, count, data) && !TooLong(data, destLen)
      invariant outBits == |FirstBitsOf(data, destLen)| && HoldsBits(dest[..], FirstBitsOf(data, destLen))
    {
      if Separator(text[i]) {
        SymsStep(text, i);
        i := i + 1;
        continue;
      }
      var sym := DecodeSym(text[i]);
      if sym < 0 {
        BadSymbol(text, i, destLen, every, crc, count, data);
        return -1;
      }
      if every != 0 && count == every {
        CrcSymbol(text, i, destLen, every, crc, data);
        if crc != sym {
          return -1;
        }
        count, crc := 0, 0;
        i := i + 1;
        continue;
      }
      DataSymbol(text, i, every, crc, count, data, sym);
      if every != 0 {
        crc, count := Crc(sym, crc), count + 1;
      }
      i := i + 1;
      if outBits >= destLen {
        NoSpace(text, i, destLen, every, crc, count, data, sym);
        if every != 0 && count != 0 {
          return -1;
        }
        return outBits;
      }
      outBits := PutSymbol(dest, destLen, outBits, sym, data);
      data := data + [sym];
    }
    Finished(text, destLen, every, crc, count, data);
    if every != 0 && count != 0 {
      return -1;
    }
    return outBits;
  }

  /** Appends as many bits of a symbol as there is room for. */
  method PutSymbol(dest: array<uint8>, destLen: nat, outBits: nat, sym: Symbol,
                   ghost data: seq<Symbol>) returns (out: nat)
    requires outBits < destLen <= 8 * dest.Length && !TooLong(data, destLen)
    requires outBits == |FirstBitsOf(data, destLen)| && HoldsBits(dest[..], FirstBitsOf(data, destLen))
    modifies dest
    ensures !TooLong(data + [sym], destLen)
    ensures out == |FirstBitsOf(data + [sym], destLen)| && HoldsBits(dest[..], FirstBitsOf(data + [sym], destLen))
  {
    var sbits := if destLen - outBits < 5 then destLen - outBits else 5;
    var s: nat := sym;
    SymbolBits(sym, sbits);
    MoreOfThem(data, sym, destLen, sbits);
    if sbits < 5 {
      s := s / TwoTo(5 - sbits);
    }
    out := PutBits(dest, outBits, s, sbits, FirstBitsOf(data, destLen), BitsOf(sym, 5)[..sbits]);
  }

  // ----- what the pair promises

  /** What base32_encode writes, base32_decode reads back, and never a null character. */
  lemma RoundTrip(data: seq<bool>, every: nat)
    requires every == 0 || (|data| + 4) / 5 % every == 0
    ensures Decoded(Encoded(data, every), |data|, every) == Some(data)
  {
    PartOfText(data, every, |data|);
    SymbolsWrite(data);
  }

  /** A destination shorter than the text: without CRCs the first bits are decoded, as the
      documentation promises; with CRCs they are only when the last symbol is needed too. */
  lemma PartOfText(data: seq<bool>, every: nat, destLen: nat)
    requires every == 0 || (|data| + 4) / 5 % every == 0
    ensures var read := Decoded(Encoded(data, every), destLen, every);
            && (read.Some? <==> every == 0 || data == [] || destLen > 5 * ((|data| + 4) / 5 - 1))
            && (read.Some? ==> read.value == FirstBitsOf(Symbols(data), destLen))
  {
    var s := Symbols(data);
    EncodedFits(data, every);
    SymsOfText(WithCrc(s, every));
    ParseWithCrc(s, every);
    if every == 0 && |s| > Needed(destLen) {
      var n := Needed(destLen);
      ParsePlain(s[..n]);
      FirstOfPart(s, n, destLen);
    }
  }

  lemma FirstOfPart(s: seq<Symbol>, n: nat, destLen: nat)
    requires n <= |s| && destLen <= 5 * n
    ensures FirstBitsOf(s[..n], destLen) == FirstBitsOf(s, destLen)
  {
    assert s == s[..n] + s[n..];
    SpreadConcat(s[..n], s[n..], 5);
    SpreadLength(s[..n], 5);
    SpreadLength(s, 5);
  }

  lemma {:induction false} SymsConcat(a: string, b: string)
    ensures Syms(a + b) == Syms(a) + Syms(b)
  {
    if a != [] {
      assert (a + b)[1..] == a[1..] + b;
      SymsConcat(a[1..], b);
    } else {
      assert a + b == b;
    }
  }

  lemma SymsOfOne(c: char)
    ensures Syms([c]) == if Separator(c) then [] else [SymOf(c)]
  {
    assert [c][1..] == [];
  }

  /** Separators do not matter. */
  lemma SeparatorIgnored(a: string, c: char, b: string, destLen: nat, every: nat)
    requires Separator(c)
    ensures Decoded(a + [c] + b, destLen, every) == Decoded(a + b, destLen, every)
  {
    SymsConcat(a + [c], b);
    SymsConcat(a, [c]);
    SymsConcat(a, b);
    SymsOfOne(c);
    assert Syms(a) + [] == Syms(a);
  }

  /** One character of the alphabet replaced by another makes decoding fail. */
  lemma TypoDetected(a: string, c: char, c': char, b: string, destLen: nat, every: nat)
    requires every > 0 && Decoded(a + [c] + b, destLen, every).Some?
    requires !Separator(c) && !Separator(c') && c != c' && SymOf(c') >= 0
    ensures Decoded(a + [c'] + b, destLen, every).None?
  {
    SymsOfThree(a, c, b);
    SymsOfThree(a, c', b);
    Middle(Syms(a), SymOf(c), SymOf(c'), Syms(b));
    ChangeDetected(a + [c] + b, a + [c'] + b, destLen, every, |Syms(a)|, SymOf(c'));
  }

  lemma ChangeDetected(t: string, t': string, destLen: nat, every: nat, k: nat, x: int)
    requires every > 0 && Decoded(t, destLen, every).Some? && 0 <= x < 32
    requires k < |Syms(t)| && Syms(t)[k] != x && Syms(t') == Syms(t)[k := x]
    ensures Decoded(t', destLen, every).None?
  {
    OneSymbolDetected(Syms(t), every, 0, 0, k, x);
  }

  lemma Middle(a: seq<int>, x: int, y: int, b: seq<int>)
    ensures (a + [x] + b)[|a|] == x && (a + [x] + b)[|a| := y] == a + [y] + b
  {
  }

  lemma SymsOfThree(a: string, c: char, b: string)
    requires !Separator(c)
    ensures Syms(a + [c] + b) == Syms(a) + [SymOf(c)] + Syms(b)
  {
    SymsConcat(a + [c], b);
    SymsConcat(a, [c]);
    SymsOfOne(c);
  }

  /** Two different neighbours of a group in the wrong order make decoding fail. */
  lemma TransposedDetected(a: string, c: char, d: char, b: string, destLen: nat, every: nat)
    requires every > 0 && Decoded(a + [c] + ([d] + b), destLen, every).Some?
    requires !Separator(c) && !Separator(d) && c != d && SameGroup(every, 0, |Syms(a)|)
    ensures Decoded(a + [d] + ([c] + b), destLen, every).None?
  {
    Neighbours(a, c, d, b);
    Neighbours(a, d, c, b);
    TwoMiddle(Syms(a), SymOf(c), SymOf(d), Syms(b));
    SwapIsDetected(a + [c] + ([d] + b), a + [d] + ([c] + b), destLen, every, |Syms(a)|);
  }

  lemma SwapIsDetected(t: string, t': string, destLen: nat, every: nat, k: nat)
    requires every > 0 && Decoded(t, destLen, every).Some? && k + 1 < |Syms(t)|
    requires SameGroup(every, 0, k) && Syms(t') == Swapped(Syms(t), k)
    requires Syms(t)[k] == Syms(t)[k + 1] ==> Syms(t)[k] < 0
    ensures Decoded(t', destLen, every).None?
  {
    var s := Syms(t);
    if s[k] >= 0 && s[k + 1] >= 0 {
      SwapDetected(s, every, 0, 0, k);
    } else {
      NegativeFails(s, every, 0, 0, if s[k] < 0 then k else k + 1);
    }
  }

  lemma TwoMiddle(a: seq<int>, x: int, y: int, b: seq<int>)
    ensures var s := a + [x] + ([y] + b);
            s[|a|] == x && s[|a| + 1] == y && Swapped(s, |a|) == a + [y] + ([x] + b)
  {
  }

  lemma Neighbours(a: string, c: char, d: char, b: string)
    requires !Separator(c) && !Separator(d)
    ensures Syms(a + [c] + ([d] + b)) == Syms(a) + [SymOf(c)] + ([SymOf(d)] + Syms(b))
  {
    SymsOfThree(a, c, [d] + b);
    SymsConcat([d], b);
    SymsOfOne(d);
  }

  lemma {:induction false} NegativeFails(s: seq<int>, every: nat, crc: Symbol, count: nat, k: nat)
    requires every > 0 && count <= every && k < |s| && s[k] < 0
    ensures Parse(s, every, crc, count).None?
    decreases k
  {
    if 0 <= s[0] < 32 {
      if count == every {
        NegativeFails(s[1..], every, 0, 0, k - 1);
      } else {
        NegativeFails(s[1..], every, Crc(s[0], crc), count + 1, k - 1);
      }
    }
  }
}
