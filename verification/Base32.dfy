/** Base-32 encoding and decoding, designed for manual entry by an operator. */
module Base32 {
  import opened Common
  import opened Bitwise
  import opened BitStrings
  import opened Crc5
  import opened Base32Text

  // A-Z and 0-9 without I, O, 0 and 1.
  const BASE32_MAP: string := "ABCDEFGHJKLMNPQRSTUVWXYZ23456789"

  datatype Code = Success | Invalid

  // ----- characters

  /** The place of a character in the alphabet, by the runs of letters and digits it is made of. */
  function SymOf(c: char): (s: int)
    ensures -1 <= s < 32
    ensures s >= 0 ==> BASE32_MAP[s] == c
  {
    var n := c as int;
    if 'A' <= c <= 'H' then n - 'A' as int
    else if 'J' <= c <= 'N' then n - 'J' as int + 8
    else if 'P' <= c <= 'Z' then n - 'P' as int + 13
    else if '2' <= c <= '9' then n - '2' as int + 24
    else -1
  }

  lemma SymOfMap(k: nat)
    requires k < 32
    ensures SymOf(BASE32_MAP[k]) == k
  {
    if k < 13 {
      SymOfFirst(k);
    } else {
      SymOfLast(k);
    }
  }

  lemma SymOfFirst(k: nat)
    requires k < 13
    ensures SymOf(BASE32_MAP[k]) == k
  {
  }

  lemma SymOfLast(k: nat)
    requires 13 <= k < 32
    ensures SymOf(BASE32_MAP[k]) == k
  {
  }

  /** decode_sym */
  method DecodeSym(c: char) returns (s: int)
    ensures s == SymOf(c)
  {
    for i := 0 to 32
      invariant forall k :: 0 <= k < i ==> BASE32_MAP[k] != c
    {
      if c == BASE32_MAP[i] {
        SymOfMap(i);
        return i;
      }
    }
    return -1;
  }

  predicate Separator(c: char) { c == ' ' || c == '\t' || c == '\r' || c == '\n' || c == '-' }

  /** The symbols a text holds, separators left out. */
  ghost function Syms(text: string): seq<int> {
    if text == [] then []
    else if Separator(text[0]) then Syms(text[1..])
    else [SymOf(text[0])] + Syms(text[1..])
  }

  function Text(s: seq<Symbol>): string { seq(|s|, k requires 0 <= k < |s| => BASE32_MAP[s[k]]) }

  lemma {:induction false} SymsOfText(s: seq<Symbol>)
    ensures Syms(Text(s)) == s
  {
    if s != [] {
      TextStep(s);
      SymOfMap(s[0]);
      SymsOfText(s[1..]);
      assert s == [s[0]] + s[1..];
    }
  }

  lemma TextStep(s: seq<Symbol>)
    requires s != []
    ensures Text(s) != [] && Text(s)[0] == BASE32_MAP[s[0]] && Text(s)[1..] == Text(s[1..])
    ensures Syms(Text(s)) == [SymOf(BASE32_MAP[s[0]])] + Syms(Text(s[1..]))
  {
    NoSeparator(s[0]);
  }

  lemma NoSeparator(k: Symbol)
    ensures !Separator(BASE32_MAP[k]) && BASE32_MAP[k] != '\0'
  {
    SymOfMap(k);
  }

  // ----- bytes as bits

  function Ints(b: seq<uint8>): seq<nat> { seq(|b|, k requires 0 <= k < |b| => b[k] as nat) }

  /** The bits of the bytes, most significant first. */
  ghost function Stream(b: seq<uint8>): seq<bool> { Spread(Ints(b), 8) }

  lemma StreamByte(b: seq<uint8>, k: nat)
    requires k < |b|
    ensures |Stream(b)| == 8 * |b| && Stream(b)[8 * k..8 * k + 8] == BitsOf(b[k] as nat, 8)
  {
    SpreadLength(Ints(b), 8);
    SpreadAt(Ints(b), 8, k, 8 * k);
  }

  lemma StreamBit(b: seq<uint8>, k: nat, o: nat)
    requires k < |b| && o < 8
    ensures |Stream(b)| == 8 * |b| && Stream(b)[8 * k + o] == BitsOf(b[k] as nat, 8)[o]
  {
    StreamByte(b, k);
    assert Stream(b)[8 * k..8 * k + 8][o] == Stream(b)[8 * k + o];
  }

  lemma EightBits(b: uint8)
    ensures Val(BitsOf(b as nat, 8)) == b as nat < TwoTo(8)
  {
    assert TwoTo(8) == 256;
    ValOfBits(b as nat, 8);
  }

  // ----- encoding

  /** A symbol that lies in one byte. */
  lemma SymbolInByte(a: uint8, off: nat)
    requires off <= 3
    ensures And(a as nat / TwoTo(3 - off), 0x1f) == Val(BitsOf(a as nat, 8)[off..off + 5])
  {
    EightBits(a);
    Window(a as nat, 8, off, off + 5);
    Low5(a as nat / TwoTo(3 - off));
  }

  lemma Low5(x: nat)
    ensures And(x, 0x1f) == x % TwoTo(5)
  {
    assert TwoTo(5) == 32;
    AndLow(x, 5);
  }

  /** The bits of a symbol that the first byte has, moved up, with zeros after them. */
  lemma SymbolStart(a: uint8, off: nat)
    requires 4 <= off < 8
    ensures And(a as nat * TwoTo(off - 3), 0x1f) == Val(BitsOf(a as nat, 8)[off..] + Zeros(off - 3))
  {
    EightBits(a);
    ValConcat(BitsOf(a as nat, 8), Zeros(off - 3));
    ValZeros(off - 3);
    Tail5(BitsOf(a as nat, 8), Zeros(off - 3), off);
  }

  lemma Tail5(a: seq<bool>, b: seq<bool>, off: nat)
    requires |a| == 8 && 4 <= off < 8 && |b| == off - 3
    ensures And(Val(a + b), 0x1f) == Val(a[off..] + b)
  {
    assert a + b == a[..off] + (a[off..] + b);
    Split(a[..off], a[off..] + b);
    Low5(Val(a + b));
  }

  /** A symbol across two bytes. */
  lemma SymbolAcross(a: uint8, next: uint8, off: nat)
    requires 4 <= off < 8
    ensures And(Or(a as nat * TwoTo(off - 3), next as nat / TwoTo(11 - off)), 0x1f)
         == Val(BitsOf(a as nat, 8)[off..] + BitsOf(next as nat, 8)[..off - 3])
  {
    EightBits(a);
    EightBits(next);
    var b := BitsOf(next as nat, 8);
    JoinBits(BitsOf(a as nat, 8), b, off - 3);
    assert |b[off - 3..]| == 11 - off;
    Tail5(BitsOf(a as nat, 8), b[..off - 3], off);
  }

  /** Moving a up by n bits and putting the first n bits of b below it. */
  lemma JoinBits(a: seq<bool>, b: seq<bool>, n: nat)
    requires n <= |b|
    ensures Or(Val(a) * TwoTo(n), Val(b) / TwoTo(|b| - n)) == Val(a + b[..n])
  {
    assert b == b[..n] + b[n..];
    Split(b[..n], b[n..]);
    ValBelow(b[..n]);
    OrDisjoint(Val(a), Val(b[..n]), n);
    ValConcat(a, b[..n]);
  }

  /** The mask that pads an incomplete symbol keeps its first bits. */
  lemma Padded(w: seq<bool>, k: nat)
    requires |w| == 5 && k < 5
    ensures And(Val(w), 0x1f * TwoTo(k)) == Val(w[..5 - k] + Zeros(k))
  {
    var u := w[..5 - k];
    assert w == u + w[5 - k..];
    Split(u, w[5 - k..]);
    ValBelow(w);
    assert TwoTo(5) == 32;
    AndHigh(Val(w), 0x1f, k, 0x1f * TwoTo(k));
    Low5(Val(u));
    ValConcat(u, Zeros(k));
    ValZeros(k);
    Five(u);
  }

  lemma Five(u: seq<bool>)
    requires |u| <= 5
    ensures Val(u) < 32 && Val(u) % 32 == Val(u)
  {
    ValBelow(u);
    ValConcat(Zeros(5 - |u|), u);
    ValZeros(5 - |u|);
    FiveBits(Zeros(5 - |u|) + u);
  }

  /** The encoder's look at the source for the symbol from bit i on.  It reads one byte past the last
      when that symbol is cut off in the middle of a byte. */
  ghost predicate Readable(src: seq<uint8>, srcLen: nat) {
    && srcLen <= 8 * |src|
    && (forall i :: 0 <= i && i % 5 == 0 && i + 1 < srcLen && i % 8 > 3 ==> i / 8 + 1 < |src|)
  }

  /** The five bits from bit i of the source on, as far as the source goes. */
  method FiveFrom(src: seq<uint8>, srcLen: nat, i: nat) returns (sym: int, ghost w: seq<bool>)
    requires Readable(src, srcLen) && i % 5 == 0 && i < srcLen <= 8 * |src| == |Stream(src)|
    ensures |w| == 5 && sym == Val(w)
    ensures var rest := if srcLen - i < 5 then srcLen - i else 5; w[..rest] == Stream(src)[i..i + rest]
  {
    var sidx := i / 8;
    var bitOffs := i % 8;
    if bitOffs <= 3 {
      sym := src[sidx] as int / TwoTo(3 - bitOffs);
      w := BitsOf(src[sidx] as nat, 8)[bitOffs..bitOffs + 5];
      SymbolInByte(src[sidx], bitOffs);
    } else {
      sym := src[sidx] as int * TwoTo(bitOffs - 3);
      if i + 1 < srcLen {
        sym := Or(sym, src[sidx + 1] as int / TwoTo(11 - bitOffs));
        w := BitsOf(src[sidx] as nat, 8)[bitOffs..] + BitsOf(src[sidx + 1] as nat, 8)[..bitOffs - 3];
        SymbolAcross(src[sidx], src[sidx + 1], bitOffs);
      } else {
        w := BitsOf(src[sidx] as nat, 8)[bitOffs..] + Zeros(bitOffs - 3);
        SymbolStart(src[sidx], bitOffs);
      }
    }
    sym := And(sym, 0x1f);
    BitsFrom(src, i, if srcLen - i < 5 then srcLen - i else 5, w);
  }

  method SymbolFrom(src: seq<uint8>, srcLen: nat, i: nat) returns (sym: Symbol)
    requires Readable(src, srcLen) && i % 5 == 0 && i < srcLen <= 8 * |src| == |Stream(src)|
    ensures sym == SymbolAt(Stream(src)[..srcLen], i / 5)
  {
    ghost var rest := if srcLen - i < 5 then srcLen - i else 5;
    var s, w := FiveFrom(src, srcLen, i);
    SymbolIs(Stream(src), srcLen, i, rest, w);
    if srcLen - i < 5 {
      Padded(w, 5 + i - srcLen);
      s := And(s, 0x1f * TwoTo(5 + i - srcLen));
    }
    sym := s;
  }

  lemma SymbolIs(s: seq<bool>, srcLen: nat, i: nat, rest: nat, w: seq<bool>)
    requires i % 5 == 0 && i + rest <= srcLen <= |s| && |w| == 5
    requires i < srcLen && rest == (if srcLen - i < 5 then srcLen - i else 5) && w[..rest] == s[i..i + rest]
    ensures Val(w[..rest] + Zeros(5 - rest)) == SymbolAt(s[..srcLen], i / 5)
    ensures rest == 5 ==> Val(w) == SymbolAt(s[..srcLen], i / 5)
  {
    ChunkIs(s[..srcLen], i, w[..rest], w[..rest] + Zeros(5 - rest));
    if rest == 5 {
      assert w == w[..5] + Zeros(0);
    }
  }

  lemma ChunkIs(data: seq<bool>, i: nat, u: seq<bool>, w: seq<bool>)
    requires i + |u| <= |data| && 0 < |u| <= 5 && u == data[i..i + |u|] && w == u + Zeros(5 - |u|)
    requires |u| < 5 ==> i + |u| == |data|
    ensures (data + Zeros(4))[i..i + 5] == w
  {
  }

  /** The bits the encoder looks at are those of the source, as far as it goes. */
  lemma BitsFrom(src: seq<uint8>, i: nat, n: nat, w: seq<bool>)
    requires i < i + n <= |Stream(src)| == 8 * |src| && n <= 5 && |w| == 5
    requires i % 8 <= 3 ==> w == BitsOf(src[i / 8] as nat, 8)[i % 8..i % 8 + 5]
    requires i % 8 > 3 ==> w[..8 - i % 8] == BitsOf(src[i / 8] as nat, 8)[i % 8..]
    requires i % 8 > 3 && n > 1 && i / 8 + 1 < |src| ==>
               w[8 - i % 8..] == BitsOf(src[i / 8 + 1] as nat, 8)[..i % 8 - 3]
    ensures w[..n] == Stream(src)[i..i + n]
  {
    forall k | 0 <= k < n
      ensures w[k] == Stream(src)[i + k]
    {
      BitFrom(src, i, w, k, i / 8, i % 8);
    }
  }

  lemma BitFrom(src: seq<uint8>, i: nat, w: seq<bool>, k: nat, sidx: nat, off: nat)
    requires i + k < |Stream(src)| == 8 * |src| && k < 5 == |w| && i == 8 * sidx + off && off < 8
    requires off <= 3 ==> w == BitsOf(src[sidx] as nat, 8)[off..off + 5]
    requires off > 3 ==> w[..8 - off] == BitsOf(src[sidx] as nat, 8)[off..]
    requires off > 3 && k > 0 && sidx + 1 < |src| ==> w[8 - off..] == BitsOf(src[sidx + 1] as nat, 8)[..off - 3]
    ensures w[k] == Stream(src)[i + k]
  {
    if off + k < 8 {
      StreamBit(src, sidx, off + k);
      if off > 3 {
        assert w[..8 - off][k] == w[k];
      }
    } else {
      StreamBit(src, sidx + 1, off + k - 8);
      assert w[8 - off..][k - (8 - off)] == w[k];
    }
  }

  /** The number of symbols and CRCs base32_encode makes of so many bits. */
  function EncodedLength(srcLen: nat, every: nat): nat {
    (srcLen + 4) / 5 + if every == 0 then 0 else (srcLen + 4) / 5 / every
  }

  ghost function Encoded(data: seq<bool>, every: nat): string { Text(WithCrc(Symbols(data), every)) }

  lemma EncodedFits(data: seq<bool>, every: nat)
    requires every == 0 || (|data| + 4) / 5 % every == 0
    ensures Whole(Symbols(data), every) && |Encoded(data, every)| == EncodedLength(|data|, every)
  {
    if every > 0 {
      WholeIsMultiple(Symbols(data), every);
    }
  }

  lemma TextAppend(s: seq<Symbol>, x: Symbol)
    ensures Text(s + [x]) == Text(s) + [BASE32_MAP[x]]
  {
  }

  /** What is written after some symbols of whole data leaves room for the next, and for a CRC when
      it ends a group. */
  lemma Room(done: seq<Symbol>, cur: seq<Symbol>, rest: seq<Symbol>, every: nat)
    requires Whole(done, every) && every > 0 && |cur| <= every && rest != []
    ensures |WithCrc(done, every) + cur| + |rest| <= |WithCrc(done + cur + rest, every)|
    ensures |cur| + 1 == every ==> |WithCrc(done, every) + cur| + 1 < |WithCrc(done + cur + rest, every)|
  {
    WithCrcAppend(done, cur + rest, every);
    assert done + cur + rest == done + (cur + rest);
    LengthGrows(cur + rest, every);
    if |cur| + 1 == every {
      LengthGrows((cur + rest)[every..], every);
    }
  }

  lemma {:induction false} LengthGrows(s: seq<Symbol>, every: nat)
    ensures |WithCrc(s, every)| >= |s|
    decreases |s|
  {
    if every > 0 && |s| >= every {
      LengthGrows(s[every..], every);
    }
  }

  /** A group that is complete joins those before it. */
  lemma GroupDone(done: seq<Symbol>, cur: seq<Symbol>, every: nat)
    requires Whole(done, every) && |cur| == every > 0
    ensures Whole(done + cur, every)
    ensures WithCrc(done + cur, every) == WithCrc(done, every) + cur + [Fold(cur, 0)]
  {
    OneGroup(cur, every);
    WithCrcAppend(done, cur, every);
    assert WithCrc(done, every) + (cur + [Fold(cur, 0)]) == WithCrc(done, every) + cur + [Fold(cur, 0)];
  }

  lemma NothingLeft(done: seq<Symbol>, cur: seq<Symbol>, every: nat)
    requires every > 0 && Whole(done, every) && Whole(done + cur, every) && |cur| < every
    ensures cur == []
    decreases |done|
  {
    if done != [] && |done + cur| > 0 {
      assert (done + cur)[every..] == done[every..] + cur;
      NothingLeft(done[every..], cur, every);
    } else {
      assert done + cur == cur;
    }
  }

  /** The state of the encoder between symbols: whole groups are done, and the last may be under way. */
  ghost predicate Emitting(dest: seq<char>, didx: nat, every: nat, crc: Symbol, count: nat,
                           done: seq<Symbol>, cur: seq<Symbol>) {
    && Whole(done, every)
    && (if every == 0 then cur == [] else count == |cur| < every && crc == Fold(cur, 0))
    && didx == |WithCrc(done, every) + cur| <= |dest|
    && dest[..didx] == Text(WithCrc(done, every) + cur)
  }

  /** Writes a symbol, and a CRC when it ends a group. */
  method Emit(dest: array<char>, didx: nat, sym: Symbol, every: nat, crc: Symbol, count: nat,
              ghost done: seq<Symbol>, ghost cur: seq<Symbol>)
    returns (didx': nat, crc': Symbol, count': nat, ghost done': seq<Symbol>, ghost cur': seq<Symbol>)
    requires Emitting(dest[..], didx, every, crc, count, done, cur)
    requires didx + (if every > 0 && count + 1 == every then 1 else 0) < dest.Length
    modifies dest
    ensures Emitting(dest[..], didx', every, crc', count', done', cur') && done' + cur' == done + cur + [sym]
    ensures every > 0 && |cur| + 1 == every ==> cur' == []
  {
    ghost var out := WithCrc(done, every) + cur;
    dest[didx] := BASE32_MAP[sym];
    didx' := didx + 1;
    TextAppend(out, sym);
    assert dest[..didx'] == dest[..didx] + [BASE32_MAP[sym]];
    if every == 0 {
      crc', count', done', cur' := crc, count, done + [sym], [];
      assert WithCrc(done', every) + [] == out + [sym];
    } else {
      FoldLast(cur, sym, 0);
      crc', count', done', cur' := Crc(sym, crc), count + 1, done, cur + [sym];
      assert out + [sym] == WithCrc(done, every) + cur';
      if count' == every {
        GroupDone(done, cur', every);
        TextAppend(out + [sym], crc');
        dest[didx'] := BASE32_MAP[crc'];
        assert dest[..didx' + 1] == dest[..didx'] + [BASE32_MAP[crc']];
        crc', count', didx', done', cur' := 0, 0, didx' + 1, done + cur', [];
        assert WithCrc(done', every) + [] == WithCrc(done', every);
      }
    }
  }

  /** base32_encode.  The text ends with a null character; on an error it is empty. */
  method Encode(dest: array<char>, destLen: nat, src: seq<uint8>, srcLen: nat, every: nat) returns (code: Code)
    requires 0 < dest.Length && destLen <= dest.Length && Readable(src, srcLen)
    modifies dest
    ensures code == Success
       <==> (every == 0 || (srcLen + 4) / 5 % every == 0) && EncodedLength(srcLen, every) + 1 <= destLen
    ensures code == Success ==>
              && srcLen <= |Stream(src)|
              && var text := Encoded(Stream(src)[..srcLen], every);
                 |text| < dest.Length && dest[..|text| + 1] == text + ['\0']
    ensures code != Success ==> dest[0] == '\0'
  {
    dest[0] := '\0';
    var needed := (srcLen + 4) / 5;
    if every != 0 {
      if needed % every != 0 {
        return Invalid;
      }
      needed := needed + needed / every;
    }
    needed := needed + 1;
    if destLen < needed {
      return Invalid;
    }
    SpreadLength(Ints(src), 8);
    EncodedFits(Stream(src)[..srcLen], every);
    var didx := EmitAll(dest, src, srcLen, every);
    ghost var text := Encoded(Stream(src)[..srcLen], every);
    dest[didx] := '\0';
    assert dest[..|text| + 1] == text + ['\0'];
    return Success;
  }

  /** The loop of base32_encode over the source. */
  method EmitAll(dest: array<char>, src: seq<uint8>, srcLen: nat, every: nat) returns (didx: nat)
    requires Readable(src, srcLen) && srcLen <= |Stream(src)| == 8 * |src|
    requires Whole(Symbols(Stream(src)[..srcLen]), every) && |Encoded(Stream(src)[..srcLen], every)| < dest.Length
    modifies dest
    ensures didx == |Encoded(Stream(src)[..srcLen], every)| && dest[..didx] == Encoded(Stream(src)[..srcLen], every)
  {
    ghost var data := Stream(src)[..srcLen];
    var crc: Symbol, crcCount := 0, 0;
    ghost var done: seq<Symbol>, cur: seq<Symbol>, j := [], [], 0;
    didx := 0;
    var i := 0;
    while i < srcLen
      invariant i == 5 * j && j <= |Symbols(data)|
      invariant Emitting(dest[..], didx, every, crc, crcCount, done, cur) && done + cur == Symbols(data)[..j]
    {
      var sym := SymbolFrom(src, srcLen, i);
      didx, crc, crcCount, done, cur := EmitNext(dest, didx, sym, every, crc, crcCount, done, cur, data, j);
      i := i + 5;
      j := j + 1;
    }
    NoMoreSymbols(data, j);
    AllWritten(Symbols(data), done, cur, every);
  }

  /** Emit, for symbol j of the data. */
  method EmitNext(dest: array<char>, didx: nat, sym: Symbol, every: nat, crc: Symbol, count: nat,
                  ghost done: seq<Symbol>, ghost cur: seq<Symbol>, ghost data: seq<bool>, ghost j: nat)
    returns (didx': nat, crc': Symbol, count': nat, ghost done': seq<Symbol>, ghost cur': seq<Symbol>)
    requires 5 * j < |data| && sym == SymbolAt(data, j) && |Encoded(data, every)| < dest.Length
    requires Emitting(dest[..], didx, every, crc, count, done, cur) && done + cur == Symbols(data)[..j]
    modifies dest
    ensures j < |Symbols(data)| && done' + cur' == Symbols(data)[..j + 1]
    ensures Emitting(dest[..], didx', every, crc', count', done', cur')
  {
    NextSymbol(data, j);
    HasRoom(Symbols(data), j, done, cur, every);
    didx', crc', count', done', cur' := Emit(dest, didx, sym, every, crc, count, done, cur);
  }

  lemma NextSymbol(data: seq<bool>, j: nat)
    requires 5 * j < |data|
    ensures j < |Symbols(data)| && Symbols(data)[..j] + [SymbolAt(data, j)] == Symbols(data)[..j + 1]
  {
  }

  lemma NoMoreSymbols(data: seq<bool>, j: nat)
    requires |data| <= 5 * j && j <= |Symbols(data)|
    ensures Symbols(data)[..j] == Symbols(data)
  {
  }

  lemma AllWritten(all: seq<Symbol>, done: seq<Symbol>, cur: seq<Symbol>, every: nat)
    requires done + cur == all && Whole(done, every) && Whole(all, every)
    requires if every == 0 then cur == [] else |cur| < every
    ensures WithCrc(all, every) == WithCrc(done, every) + cur
  {
    if every > 0 {
      NothingLeft(done, cur, every);
    }
    assert done + [] == done && WithCrc(done, every) + [] == WithCrc(done, every);
  }

  lemma HasRoom(all: seq<Symbol>, j: nat, done: seq<Symbol>, cur: seq<Symbol>, every: nat)
    requires j < |all| && done + cur == all[..j] && Whole(done, every)
    requires if every == 0 then cur == [] else |cur| < every
    ensures |WithCrc(done, every) + cur| + (if every > 0 && |cur| + 1 == every then 1 else 0) < |WithCrc(all, every)|
  {
    if every > 0 {
      assert done + cur + all[j..] == all;
      Room(done, cur, all[j..], every);
    }
  }

  // ----- decoding

  /** The bytes hold these bits, the last byte of them filled up with zeros. */
  ghost predicate HoldsBits(b: seq<uint8>, bits: seq<bool>) {
    |bits| <= 8 * |b| && forall k :: 0 <= k && 8 * k < |bits| ==> b[k] as int == ByteOf(bits, k)
  }

  ghost function ByteOf(bits: seq<bool>, k: nat): nat
    requires 8 * k < |bits|
  {
    Val((bits + Zeros(7))[8 * k..8 * k + 8])
  }

  /** Held bits are the first in the stream. */
  lemma HeldBits(b: seq<uint8>, bits: seq<bool>)
    requires HoldsBits(b, bits)
    ensures |bits| <= |Stream(b)| && Stream(b)[..|bits|] == bits
  {
    SpreadLength(Ints(b), 8);
    forall i | 0 <= i < |bits|
      ensures Stream(b)[i] == bits[i]
    {
      HeldBit(b, bits, i / 8, i % 8);
    }
  }

  lemma HeldBit(b: seq<uint8>, bits: seq<bool>, k: nat, o: nat)
    requires HoldsBits(b, bits) && o < 8 && 8 * k + o < |bits|
    ensures 8 * k + o < |Stream(b)| && Stream(b)[8 * k + o] == bits[8 * k + o]
  {
    var byte := (bits + Zeros(7))[8 * k..8 * k + 8];
    StreamBit(b, k, o);
    assert b[k] as int == ByteOf(bits, k);
    BitsOfVal(byte);
    assert byte[o] == (bits + Zeros(7))[8 * k + o];
  }

  /** (sym << up) >> down is the first bits of sym, moved up, when up or down is zero. */
  lemma FirstBits(w: seq<bool>, n: nat, up: nat, down: nat)
    requires n + down == |w| && (up == 0 || down == 0)
    ensures Val(w) * TwoTo(up) / TwoTo(down) == Val(w[..n] + Zeros(up))
  {
    if down == 0 {
      ShiftUp(w, up);
      assert w[..n] == w && TwoTo(0) == 1;
      DividedByOne(Val(w) * TwoTo(up));
    } else {
      ShiftDown(w, n);
      assert TwoTo(0) == 1 && w[..n] + Zeros(0) == w[..n];
    }
  }

  lemma DividedByOne(x: int)
    ensures x / 1 == x
  {
  }

  lemma ShiftUp(w: seq<bool>, n: nat)
    ensures Val(w) * TwoTo(n) == Val(w + Zeros(n))
  {
    ValConcat(w, Zeros(n));
    ValZeros(n);
  }

  lemma ShiftDown(w: seq<bool>, n: nat)
    requires n <= |w|
    ensures Val(w) / TwoTo(|w| - n) == Val(w[..n])
  {
    assert w == w[..n] + w[n..];
    Split(w[..n], w[n..]);
  }

  /** Setting bits that are zero. */
  lemma OrZeros(p: seq<bool>, c: seq<bool>)
    ensures Or(Val(p + Zeros(|c|)), Val(c)) == Val(p + c)
  {
    ValConcat(p, Zeros(|c|));
    ValZeros(|c|);
    ValConcat(p, c);
    ValBelow(c);
    OrDisjoint(Val(p), Val(c), |c|);
  }

  lemma ByteBound(s: seq<bool>)
    requires |s| == 8
    ensures Val(s) < 256
  {
    ValBelow(s);
    assert TwoTo(8) == 256;
  }

  lemma FilledByte(p: seq<bool>, w: seq<bool>, n: nat, up: nat)
    requires |p| + n + up == 8 && n <= |w| && (n == |w| || up == 0)
    ensures Or(Val(p + Zeros(n + up)), Val(w) * TwoTo(up) / TwoTo(|w| - n)) == Val(p + (w[..n] + Zeros(up))) < 256
  {
    FirstBits(w, n, up, |w| - n);
    OrZeros(p, w[..n] + Zeros(up));
    ByteBound(p + (w[..n] + Zeros(up)));
  }

  /** The last byte of the destination, that is not full. */
  lemma PartByte(b: seq<uint8>, bits: seq<bool>, k: nat, dbits: nat)
    requires HoldsBits(b, bits) && k < |b| && |bits| + dbits == 8 * k + 8 && 0 < dbits < 8
    ensures b[k] as int == Val(bits[8 * k..] + Zeros(dbits))
  {
    TailChunk(bits, 7, 8 * k, 8);
    assert b[k] as int == ByteOf(bits, k);
  }

  lemma EmptyByte(p: seq<bool>)
    requires p == []
    ensures Val(p + Zeros(8)) == 0
  {
    ValZeros(8);
    assert p + Zeros(8) == Zeros(8);
  }

  /** Fills up the current byte of the destination. */
  method FillByte(dest: array<uint8>, sym: nat, sbits: nat, n: nat, ghost bits: seq<bool>, outBits: nat,
                  ghost w: seq<bool>)
    requires HoldsBits(dest[..], bits) && outBits == |bits| < 8 * dest.Length
    requires |w| == sbits && sym == Val(w) && 0 < n == if 8 - outBits % 8 < sbits then 8 - outBits % 8 else sbits
    modifies dest
    ensures HoldsBits(dest[..], bits + w[..n])
    ensures forall k :: 0 <= k < dest.Length && k != outBits / 8 ==> dest[k] == old(dest[k])
  {
    var dbits := 8 - outBits % 8;
    var k := outBits / 8;
    ghost var before := dest[..];
    if dbits == 8 {
      dest[k] := 0;
      EmptyByte(bits[8 * k..]);
    } else {
      PartByte(dest[..], bits, k, dbits);
    }
    OrInto(dest, k, sym, sbits, n, dbits, before, bits, w);
  }

  /** dest[k] |= sym << (dbits - n) >> (sbits - n) */
  method OrInto(dest: array<uint8>, k: nat, sym: nat, sbits: nat, n: nat, dbits: nat, ghost before: seq<uint8>,
                ghost bits: seq<bool>, ghost w: seq<bool>)
    requires k < dest.Length == |before| && HoldsBits(before, bits) && |bits| + dbits == 8 * k + 8 && dbits <= 8
    requires dest[k] as int == Val(bits[8 * k..] + Zeros(dbits)) && forall j :: 0 <= j < k ==> dest[j] == before[j]
    requires |w| == sbits && sym == Val(w) && 0 < n == if dbits < sbits then dbits else sbits
    modifies dest
    ensures HoldsBits(dest[..], bits + w[..n])
    ensures forall j :: 0 <= j < dest.Length && j != k ==> dest[j] == old(dest[j])
  {
    FilledByte(bits[8 * k..], w, n, dbits - n);
    dest[k] := Or(dest[k] as int, sym * TwoTo(dbits - n) / TwoTo(sbits - n)) as uint8;
    MoreBits(before, dest[..], bits, w[..n], k, dbits - n);
  }

  /** The bytes before the last are unchanged by more bits in it. */
  lemma MoreBits(b: seq<uint8>, b': seq<uint8>, bits: seq<bool>, more: seq<bool>, k: nat, z: nat)
    requires HoldsBits(b, bits) && |b'| == |b| && k < |b| && 8 * k <= |bits|
    requires 0 < |more| && |bits| + |more| + z == 8 * k + 8
    requires forall j :: 0 <= j < k ==> b'[j] == b[j]
    requires b'[k] as int == Val(bits[8 * k..] + (more + Zeros(z)))
    ensures HoldsBits(b', bits + more)
  {
    forall j | 0 <= j && 8 * j < |bits + more|
      ensures b'[j] as int == ByteOf(bits + more, j)
    {
      if j == k {
        LastByte(bits, more, k, z);
      } else {
        KeptByte(b, bits, more, j);
      }
    }
  }

  lemma KeptByte(b: seq<uint8>, bits: seq<bool>, more: seq<bool>, j: nat)
    requires 8 * j + 8 <= |bits| && HoldsBits(b, bits)
    ensures b[j] as int == ByteOf(bits + more, j)
  {
    SameChunk(bits, more, j);
  }

  lemma SameChunk(bits: seq<bool>, more: seq<bool>, j: nat)
    requires 8 * j + 8 <= |bits|
    ensures (bits + more + Zeros(7))[8 * j..8 * j + 8] == (bits + Zeros(7))[8 * j..8 * j + 8]
  {
  }

  lemma LastByte(bits: seq<bool>, more: seq<bool>, k: nat, z: nat)
    requires 8 * k <= |bits| && 0 < |more| && |bits| + |more| + z == 8 * k + 8
    ensures ByteOf(bits + more, k) == Val(bits[8 * k..] + (more + Zeros(z)))
  {
    LastChunk(bits, more, k, z);
  }

  lemma LastChunk(bits: seq<bool>, more: seq<bool>, k: nat, z: nat)
    requires 8 * k <= |bits| && 0 < |more| && |bits| + |more| + z == 8 * k + 8
    ensures (bits + more + Zeros(7))[8 * k..8 * k + 8] == bits[8 * k..] + (more + Zeros(z))
  {
  }

  /** The low byte of sym << (8 - left) is its last bits, moved up. */
  lemma LowByte(w: seq<bool>, n: nat)
    requires n <= |w| && |w| - n <= 8
    ensures Val(w) * TwoTo(8 - (|w| - n)) % 256 == Val(w[n..] + Zeros(8 - (|w| - n)))
  {
    var z := 8 - (|w| - n);
    ShiftUp(w, z);
    assert w + Zeros(z) == w[..n] + (w[n..] + Zeros(z));
    Split(w[..n], w[n..] + Zeros(z));
    assert TwoTo(8) == 256;
  }

  /** Starts the next byte with the bits that are left. */
  method StartByte(dest: array<uint8>, sym: nat, left: nat, ghost bits: seq<bool>, outBits: nat, ghost w: seq<bool>,
                   ghost n: nat)
    requires HoldsBits(dest[..], bits) && outBits == |bits| < 8 * dest.Length && outBits % 8 == 0
    requires sym == Val(w) && n + left == |w| && 0 < left <= 8
    modifies dest
    ensures HoldsBits(dest[..], bits + w[n..])
    ensures forall k :: 0 <= k < dest.Length && k != outBits / 8 ==> dest[k] == old(dest[k])
  {
    ghost var c := w[n..] + Zeros(8 - left);
    LowByte(w, n);
    ByteBound(c);
    assert bits[8 * (outBits / 8)..] + c == c;
    dest[outBits / 8] := (sym * TwoTo(8 - left) % 256) as uint8;
    MoreBits(old(dest[..]), dest[..], bits, w[n..], outBits / 8, 8 - left);
  }

  /** Appends the bits of a symbol to the destination. */
  method PutBits(dest: array<uint8>, outBits: nat, sym: nat, sbits: nat, ghost bits: seq<bool>, ghost w: seq<bool>)
    returns (out: nat)
    requires HoldsBits(dest[..], bits) && outBits == |bits| && outBits + sbits <= 8 * dest.Length
    requires |w| == sbits && 0 < sbits <= 5 && sym == Val(w)
    modifies dest
    ensures out == outBits + sbits && HoldsBits(dest[..], bits + w)
    ensures forall k :: 0 <= k < dest.Length && 8 * k >= out ==> dest[k] == old(dest[k])
  {
    var dbits := 8 - outBits % 8;
    var b := if dbits < sbits then dbits else sbits;
    FillByte(dest, sym, sbits, b, bits, outBits, w);
    out := outBits + b;
    var left := sbits - b;
    assert bits + w[..b] + w[b..] == bits + w;
    if left > 0 {
      StartByte(dest, sym, left, bits + w[..b], out, w, b);
      out := out + left;
    } else {
      assert w[..b] == w;
    }
  }
}
