/** The containers in flash as a log of items, and the bytes they are stored as. */
module NvLog {
  import opened Common
  import opened NvLayout

  datatype Salt = Salt(page: nat, offset: nat, hash: nat)

  /** app_cipher, and app_compute_hash cut to the bits a container keeps. */
  datatype Coder = Coder(cipher: (Salt, seq<uint8>) -> seq<uint8>, hash: seq<uint8> -> nat)

  /** The cipher keeps the length and undoes itself under the same salt. */
  ghost predicate CoderOk(coder: Coder) {
    && (forall s, d :: |coder.cipher(s, d)| == |d|)
    && (forall s, d :: coder.cipher(s, coder.cipher(s, d)) == d)
  }

  /** A container and where it starts; the kind of a deleted one is that of old copies. */
  datatype Item = Item(pos: nat, kind: nat, copy: nat, generation: nat, body: seq<uint8>)

  ghost predicate ItemOk(e: Item) {
    && (e.kind == e.copy || e.kind == NN_OBJ_OLD_COPY) && e.copy < NN_OBJ_ERASED && e.generation < GENERATIONS
    && |e.body| <= MAX_OBJECT_SIZE && e.pos % 4 == 0
  }

  function ItemEnd(e: Item): nat { e.pos + AlignedSize(|e.body|) }

  /** The hash of a container does not depend on its type field. */
  function HashOf(coder: Coder, copy: nat, generation: nat, body: seq<uint8>): (h: nat)
    requires copy < 8 && generation < GENERATIONS && |body| <= MAX_OBJECT_SIZE
    ensures h < HASHES
  {
    coder.hash(HeaderBytes(Container(copy, copy, |body|, generation, 0)) + body) % HASHES
  }

  ghost function HeaderFor(coder: Coder, e: Item): (c: Container)
    requires ItemOk(e)
    ensures ContainerOk(c)
  {
    Container(e.kind, e.copy, |e.body|, e.generation, HashOf(coder, e.copy, e.generation, e.body))
  }

  /** The salt is made of the place of a container and its hash. */
  function SaltAt(pos: nat, hash: nat): Salt { Salt(pos / 2040, PAGE_HEADER_SIZE + pos % 2040, hash) }

  /** An item in the data bytes from position base on; its padding can be anything. */
  ghost predicate Stored(coder: Coder, data: seq<uint8>, base: nat, e: Item) {
    && ItemOk(e) && base <= e.pos && ItemEnd(e) <= base + |data|
    && var o, c := e.pos - base, HeaderFor(coder, e);
       && data[o..o + CONTAINER_SIZE] == HeaderBytes(c)
       && data[o + CONTAINER_SIZE..o + CONTAINER_SIZE + |e.body|] == coder.cipher(SaltAt(e.pos, c.hash), e.body)
  }

  // ----- items one after the other

  /** Items low to the last follow each other without gaps; those before low have been given up. */
  ghost predicate Chained(items: seq<Item>, low: nat, from: nat, to: nat) {
    if |items| <= low then |items| == low && from == to
    else
      && Chained(items[..|items| - 1], low, from, items[|items| - 1].pos)
      && ItemEnd(items[|items| - 1]) == to
  }

  /** Where item k starts, or the log ends. */
  function PosAt(items: seq<Item>, k: nat, to: nat): nat { if k < |items| then items[k].pos else to }

  lemma {:induction false} ChainedItem(items: seq<Item>, low: nat, from: nat, to: nat, k: nat)
    requires Chained(items, low, from, to) && low <= k <= |items|
    ensures from <= PosAt(items, k, to) <= to && (k == low ==> PosAt(items, k, to) == from)
    ensures k < |items| ==> items[k].pos < ItemEnd(items[k]) == PosAt(items, k + 1, to) <= to
    ensures k > low ==> from < PosAt(items, k, to)
    decreases |items|
  {
    if |items| > low {
      var n := |items| - 1;
      ChainedItem(items[..n], low, from, items[n].pos, if k < n then k else n);
    }
  }

  lemma {:induction false} ChainedOrder(items: seq<Item>, low: nat, from: nat, to: nat, j: nat, k: nat)
    requires Chained(items, low, from, to) && low <= j <= k <= |items|
    ensures PosAt(items, j, to) <= PosAt(items, k, to) && (j < k ==> ItemEnd(items[j]) <= PosAt(items, k, to))
    decreases k - j
  {
    if j < k {
      ChainedItem(items, low, from, to, j);
      ChainedOrder(items, low, from, to, j + 1, k);
    }
  }

  lemma ChainedAppend(items: seq<Item>, low: nat, from: nat, to: nat, e: Item)
    requires Chained(items, low, from, to) && e.pos == to
    ensures Chained(items + [e], low, from, ItemEnd(e))
  {
    assert (items + [e])[..|items|] == items;
    assert |items| >= low by {
      ChainedLength(items, low, from, to);
    }
  }

  lemma ChainedLength(items: seq<Item>, low: nat, from: nat, to: nat)
    requires Chained(items, low, from, to)
    ensures low <= |items|
  {
  }

  lemma {:induction false} ChainedFrom(items: seq<Item>, low: nat, from: nat, to: nat, k: nat)
    requires Chained(items, low, from, to) && low <= k <= |items|
    ensures Chained(items, k, PosAt(items, k, to), to)
    decreases |items|
  {
    if k < |items| {
      var n := |items| - 1;
      ChainedFrom(items[..n], low, from, items[n].pos, k);
    }
  }

  /** The header of a deleted container. */
  function Deleted(e: Item): Item { e.(kind := NN_OBJ_OLD_COPY) }

  lemma {:induction false} ChainedDelete(items: seq<Item>, low: nat, from: nat, to: nat, k: nat)
    requires Chained(items, low, from, to) && low <= k < |items|
    ensures Chained(items[k := Deleted(items[k])], low, from, to)
    decreases |items|
  {
    var n := |items| - 1;
    if k < n {
      ChainedDelete(items[..n], low, from, items[n].pos, k);
      assert items[k := Deleted(items[k])][..n] == items[..n][k := Deleted(items[k])];
    } else {
      assert items[k := Deleted(items[k])][..n] == items[..n];
    }
  }

  // ----- items in flash

  ghost predicate AllStored(coder: Coder, data: seq<uint8>, base: nat, items: seq<Item>, low: nat) {
    forall k {:trigger Stored(coder, data, base, items[k])} :: low <= k < |items| ==>
        Stored(coder, data, base, items[k])
  }

  lemma StoredFrame(coder: Coder, data: seq<uint8>, data': seq<uint8>, base: nat, e: Item)
    requires Stored(coder, data, base, e) && ItemEnd(e) <= base + |data'|
    requires forall i :: e.pos - base <= i < ItemEnd(e) - base ==> data'[i] == data[i]
    ensures Stored(coder, data', base, e)
  {
    var o := e.pos - base;
    assert data'[o..o + CONTAINER_SIZE] == data[o..o + CONTAINER_SIZE];
    assert data'[o + CONTAINER_SIZE..o + CONTAINER_SIZE + |e.body|]
        == data[o + CONTAINER_SIZE..o + CONTAINER_SIZE + |e.body|];
  }

  /** Bytes from to on do not matter. */
  lemma AllStoredFrame(coder: Coder, data: seq<uint8>, data': seq<uint8>, base: nat, items: seq<Item>, low: nat,
                       from: nat, to: nat)
    requires Chained(items, low, from, to) && base <= from && AllStored(coder, data, base, items, low)
    requires base <= to <= base + |data| && to <= base + |data'| && data'[..to - base] == data[..to - base]
    ensures AllStored(coder, data', base, items, low)
  {
    assert forall i :: 0 <= i < to - base ==> data'[..to - base][i] == data'[i] && data[..to - base][i] == data[i];
    forall k | low <= k < |items|
      ensures Stored(coder, data', base, items[k])
    {
      ChainedItem(items, low, from, to, k);
      assert Stored(coder, data, base, items[k]);
      StoredFrame(coder, data, data', base, items[k]);
    }
  }

  lemma AllStoredAppend(coder: Coder, data: seq<uint8>, base: nat, items: seq<Item>, low: nat, e: Item)
    requires AllStored(coder, data, base, items, low) && Stored(coder, data, base, e)
    ensures AllStored(coder, data, base, items + [e], low)
  {
    var t := items + [e];
    forall k | low <= k < |t|
      ensures Stored(coder, data, base, t[k])
    {
      assert k < |items| ==> Stored(coder, data, base, items[k]);
    }
  }

  /** The items before k, and the bytes before the others, can be given up. */
  lemma AllStoredRelease(coder: Coder, data: seq<uint8>, base: nat, items: seq<Item>, low: nat, k: nat, n: nat)
    requires AllStored(coder, data, base, items, low) && low <= k <= |items| && n <= |data|
    requires forall j :: k <= j < |items| ==> base + n <= items[j].pos
    ensures AllStored(coder, data[n..], base + n, items, k)
  {
    forall j | k <= j < |items|
      ensures Stored(coder, data[n..], base + n, items[j])
    {
      assert Stored(coder, data, base, items[j]);
      StoredRebase(coder, data, base, items[j], n);
    }
  }

  lemma StoredRebase(coder: Coder, data: seq<uint8>, base: nat, e: Item, n: nat)
    requires Stored(coder, data, base, e) && base + n <= e.pos && n <= |data|
    ensures Stored(coder, data[n..], base + n, e)
  {
    var o := e.pos - base;
    SliceOfRest(data, n, o, CONTAINER_SIZE);
    SliceOfRest(data, n, o + CONTAINER_SIZE, |e.body|);
  }

  lemma SliceOfRest(data: seq<uint8>, n: nat, o: nat, len: nat)
    requires n <= o <= o + len <= |data|
    ensures data[n..][o - n..o - n + len] == data[o..o + len]
  {
  }

  /** Writing the header of a deleted container in the place of the one that was there. */
  lemma AllStoredDelete(coder: Coder, data: seq<uint8>, base: nat, items: seq<Item>, low: nat, from: nat, to: nat,
                        k: nat, data': seq<uint8>)
    requires Chained(items, low, from, to) && base <= from && AllStored(coder, data, base, items, low)
    requires low <= k < |items|
    requires Stored(coder, data, base, items[k])
    requires var o := items[k].pos - base;
             data' == data[..o] + HeaderBytes(HeaderFor(coder, Deleted(items[k]))) + data[o + CONTAINER_SIZE..]
    ensures AllStored(coder, data', base, items[k := Deleted(items[k])], low)
  {
    var t := items[k := Deleted(items[k])];
    forall j | low <= j < |t|
      ensures Stored(coder, data', base, t[j])
    {
      ChainedItem(items, low, from, to, j);
      assert Stored(coder, data, base, items[j]);
      if j == k {
        StoredDelete(coder, data, base, items[k], data');
      } else {
        if j < k {
          ChainedOrder(items, low, from, to, j, k);
        } else {
          ChainedOrder(items, low, from, to, k, j);
        }
        OtherStored(coder, data, base, items[k], data', items[j]);
      }
    }
  }

  lemma StoredDelete(coder: Coder, data: seq<uint8>, base: nat, e: Item, data': seq<uint8>)
    requires Stored(coder, data, base, e)
    requires var o := e.pos - base;
             data' == data[..o] + HeaderBytes(HeaderFor(coder, Deleted(e))) + data[o + CONTAINER_SIZE..]
    ensures Stored(coder, data', base, Deleted(e))
  {
    var o := e.pos - base;
    HeaderRoundTrip(HeaderFor(coder, Deleted(e)));
    assert data'[o..o + CONTAINER_SIZE] == HeaderBytes(HeaderFor(coder, Deleted(e)));
    assert data'[o + CONTAINER_SIZE..o + CONTAINER_SIZE + |e.body|]
        == data[o + CONTAINER_SIZE..o + CONTAINER_SIZE + |e.body|];
  }

  lemma OtherStored(coder: Coder, data: seq<uint8>, base: nat, e: Item, data': seq<uint8>, f: Item)
    requires Stored(coder, data, base, e) && Stored(coder, data, base, f)
    requires ItemEnd(e) <= f.pos || ItemEnd(f) <= e.pos
    requires var o := e.pos - base;
             data' == data[..o] + HeaderBytes(HeaderFor(coder, Deleted(e))) + data[o + CONTAINER_SIZE..]
    ensures Stored(coder, data', base, f)
  {
    HeaderRoundTrip(HeaderFor(coder, Deleted(e)));
    Patched(data, e.pos - base, HeaderBytes(HeaderFor(coder, Deleted(e))), data', f.pos - base, ItemEnd(f) - base);
    StoredFrame(coder, data, data', base, f);
  }

  /** Bytes beside a patch are unchanged. */
  lemma Patched(data: seq<uint8>, o: nat, h: seq<uint8>, data': seq<uint8>, a: nat, b: nat)
    requires o + |h| <= |data| && data' == data[..o] + h + data[o + |h|..]
    requires a <= b <= |data| && (b <= o || o + |h| <= a)
    ensures |data'| == |data| && forall i :: a <= i < b ==> data'[i] == data[i]
  {
  }
}
