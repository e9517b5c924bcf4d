/** What writing does to the storage: appending a container, deleting one, taking and releasing pages. */
module NvWrite {
  import opened Common
  import opened Flash
  import opened NvLayout
  import opened NvLog
  import opened NvStore

  /** The bytes of a container as they are written, padding included. */
  ghost predicate IsImage(coder: Coder, e: Item, bytes: seq<uint8>) {
    && ItemOk(e) && |bytes| == AlignedSize(|e.body|)
    && var c := HeaderFor(coder, e);
       && bytes[..CONTAINER_SIZE] == HeaderBytes(c)
       && bytes[CONTAINER_SIZE..CONTAINER_SIZE + |e.body|] == coder.cipher(SaltAt(e.pos, c.hash), e.body)
  }

  lemma ImageIs(coder: Coder, e: Item, c: Container, payload: seq<uint8>, pad: seq<uint8>)
    requires CoderOk(coder) && ItemOk(e) && c == HeaderFor(coder, e)
    requires payload == coder.cipher(SaltAt(e.pos, c.hash), e.body) || (payload == e.body == [])
    requires |pad| == AlignedSize(|e.body|) - CONTAINER_SIZE - |e.body|
    ensures IsImage(coder, e, HeaderBytes(c) + payload + pad)
  {
    var bytes := HeaderBytes(c) + payload + pad;
    HeaderRoundTrip(c);
    assert |coder.cipher(SaltAt(e.pos, c.hash), e.body)| == |e.body|;
    assert bytes[..CONTAINER_SIZE] == HeaderBytes(c);
    assert bytes[CONTAINER_SIZE..CONTAINER_SIZE + |e.body|] == payload;
  }

  lemma ImageStored(coder: Coder, data: seq<uint8>, base: nat, e: Item, bytes: seq<uint8>)
    requires IsImage(coder, e, bytes) && base <= e.pos && ItemEnd(e) <= base + |data|
    requires data[e.pos - base..ItemEnd(e) - base] == bytes
    ensures Stored(coder, data, base, e)
  {
    var o := e.pos - base;
    SubSlice(data, o, |bytes|, 0, CONTAINER_SIZE);
    SubSlice(data, o, |bytes|, CONTAINER_SIZE, CONTAINER_SIZE + |e.body|);
  }

  /** The pages stay in order when the log grows within the last page. */
  lemma PagesAppend(headers: seq<PageHeader>, firsts: seq<nat>, log: seq<Item>, low: nat, from: nat, to: nat, e: Item)
    requires PagesOk(headers, firsts, log, low, to) && e.pos == to
    ensures PagesOk(headers, firsts, log + [e], low, ItemEnd(e))
  {
    forall k | 0 <= k < |headers|
      ensures PageOk(headers, firsts, log + [e], low, ItemEnd(e), k)
    {
      assert PageOk(headers, firsts, log, low, to, k);
    }
  }

  /** And when it grows into, or up to, a new page. */
  lemma PagesGrow(headers: seq<PageHeader>, firsts: seq<nat>, log: seq<Item>, low: nat, from: nat, to: nat, e: Item,
                  h: PageHeader)
    requires PagesOk(headers, firsts, log, low, to) && Chained(log, low, from, to) && e.pos == to
    requires h.number == headers[0].number + |headers| && to < 2040 * h.number
    requires PAGE_HEADER_SIZE <= h.dataOffset < CONFIG_FLASH_BANK_SIZE && ItemEnd(e) == PageStart(h)
    ensures PagesOk(headers + [h], firsts + [|log| + 1], log + [e], low, ItemEnd(e))
  {
    var hs, fs, es := headers + [h], firsts + [|log| + 1], log + [e];
    ChainedLength(log, low, from, to);
    forall k | 0 <= k < |hs|
      ensures PageOk(hs, fs, es, low, ItemEnd(e), k)
    {
      if k < |headers| {
        assert PageOk(headers, firsts, log, low, to, k);
      }
    }
  }

  /** The page header that releases nothing but the pages before it. */
  lemma PagesRelease(headers: seq<PageHeader>, firsts: seq<nat>, log: seq<Item>, low: nat, from: nat, to: nat)
    requires PagesOk(headers, firsts, log, low, to) && Chained(log, low, from, to) && |headers| > 1
    ensures low <= firsts[1] <= |log| && PagesOk(headers[1..], firsts[1..], log, firsts[1], to)
  {
    assert PageOk(headers, firsts, log, low, to, 1);
    forall k | 0 <= k < |headers[1..]|
      ensures PageOk(headers[1..], firsts[1..], log, firsts[1], to, k)
    {
      assert PageOk(headers, firsts, log, low, to, k + 1);
      FirstsOrder(headers, firsts, log, low, from, to, k + 1);
    }
  }

  /** The first container of a later page is no earlier. */
  lemma FirstsOrder(headers: seq<PageHeader>, firsts: seq<nat>, log: seq<Item>, low: nat, from: nat, to: nat, k: nat)
    requires PagesOk(headers, firsts, log, low, to) && Chained(log, low, from, to) && 1 <= k < |headers|
    ensures low <= firsts[1] <= firsts[k] <= |log|
  {
    assert PageOk(headers, firsts, log, low, to, 1) && PageOk(headers, firsts, log, low, to, k);
    if firsts[k] < firsts[1] {
      ChainedOrder(log, low, from, to, firsts[k], firsts[1] - 1);
    }
  }

  lemma PagesDelete(headers: seq<PageHeader>, firsts: seq<nat>, log: seq<Item>, low: nat, to: nat, i: nat)
    requires PagesOk(headers, firsts, log, low, to) && i < |log|
    ensures PagesOk(headers, firsts, log[i := Deleted(log[i])], low, to)
  {
    var log' := log[i := Deleted(log[i])];
    forall k | 0 <= k < |headers|
      ensures PageOk(headers, firsts, log', low, to, k)
    {
      assert PageOk(headers, firsts, log, low, to, k);
    }
  }

  /** The bytes of a log and of one more container. */
  lemma DataAppended(coder: Coder, data: seq<uint8>, base: nat, log: seq<Item>, low: nat, from: nat, to: nat, e: Item,
                     bytes: seq<uint8>, data': seq<uint8>)
    requires Chained(log, low, from, to) && AllStored(coder, data, base, log, low)
    requires base <= from <= to <= base + |data|
    requires IsImage(coder, e, bytes) && e.pos == to && data[..to - base] + bytes <= data'
    ensures AllStored(coder, data', base, log + [e], low) && Chained(log + [e], low, from, ItemEnd(e))
  {
    var o := to - base;
    assert (data[..o] + bytes)[o..] == bytes && (data[..o] + bytes)[..o] == data[..o];
    assert data'[..o] == data[..o] && data'[o..o + |bytes|] == bytes;
    AllStoredFrame(coder, data, data', base, log, low, from, to);
    ImageStored(coder, data', base, e, bytes);
    AllStoredAppend(coder, data', base, log, low, e);
    ChainedAppend(log, low, from, to, e);
  }

  /** What the data areas hold after a container is written at the end, and pages after it are erased. */
  lemma LogWritten(coder: Coder, headers: seq<PageHeader>, data: seq<uint8>, pageCount: nat, offset: nat,
                   log: seq<Item>, low: nat, firsts: seq<nat>, e: Item, bytes: seq<uint8>, data': seq<uint8>)
    requires StoreOk(coder, headers, data, pageCount, offset, log, low, firsts)
    requires IsImage(coder, e, bytes) && e.pos == Position(headers[|headers| - 1].number, offset)
    requires var o := 2040 * (|headers| - 1) + offset - PAGE_HEADER_SIZE; o <= |data| && data[..o] + bytes <= data'
    ensures AllStored(coder, data', Base(headers), log + [e], low) && |bytes| == AlignedSize(|e.body|)
  {
    StoreListed(coder, headers, data, pageCount, offset, log, low, firsts);
    var to := Position(headers[|headers| - 1].number, offset);
    DataAppended(coder, data, Base(headers), log, low, PageStart(headers[0]), to, e, bytes, data');
  }

  /** A container that ends before the page does. */
  lemma StoreAppend(coder: Coder, headers: seq<PageHeader>, data: seq<uint8>, pageCount: nat, offset: nat,
                    log: seq<Item>, low: nat, firsts: seq<nat>, e: Item, data': seq<uint8>, n: nat)
    requires StoreOk(coder, headers, data, pageCount, offset, log, low, firsts)
    requires e.pos == Position(headers[|headers| - 1].number, offset) && n == AlignedSize(|e.body|)
    requires offset + n < CONFIG_FLASH_BANK_SIZE
    requires AllStored(coder, data', Base(headers), log + [e], low) && |data'| == |data|
    requires var o := 2040 * (|headers| - 1) + offset + n - PAGE_HEADER_SIZE;
             o <= |data'| && data'[o..] == Erased(|data'| - o)
    ensures StoreOk(coder, headers, data', pageCount, offset + n, log + [e], low, firsts)
  {
    var from, to := PageStart(headers[0]), Position(headers[|headers| - 1].number, offset);
    StoreListed(coder, headers, data, pageCount, offset, log, low, firsts);
    ChainedAppend(log, low, from, to, e);
    PagesAppend(headers, firsts, log, low, from, to, e);
  }

  lemma StillErased(data: seq<uint8>, o: nat, bytes: seq<uint8>, data': seq<uint8>)
    requires o + |bytes| <= |data| && data[o..] == Erased(|data| - o)
    requires data' == data[..o] + bytes + data[o + |bytes|..]
    ensures |data'| == |data| && data[..o] + bytes <= data' && data'[o + |bytes|..] == Erased(|data| - o - |bytes|)
  {
    assert data[o + |bytes|..] == data[o..][|bytes|..];
  }

  lemma NewPageErased(data: seq<uint8>, o: nat, bytes: seq<uint8>, data': seq<uint8>, n: nat)
    requires o <= |data| && data' == data[..o] + bytes + Erased(n)
    ensures data[..o] + bytes <= data' && |data'| == o + |bytes| + n && data'[o + |bytes|..] == Erased(n)
  {
  }

  /** A container that reaches the end of the page, and goes on in a new one. */
  lemma StoreGrow(coder: Coder, headers: seq<PageHeader>, data: seq<uint8>, pageCount: nat, offset: nat,
                  log: seq<Item>, low: nat, firsts: seq<nat>, e: Item, data': seq<uint8>, rest: nat, h: PageHeader)
    requires StoreOk(coder, headers, data, pageCount, offset, log, low, firsts)
    requires e.pos == Position(headers[|headers| - 1].number, offset) && |headers| < pageCount
    requires rest == offset + AlignedSize(|e.body|) - CONFIG_FLASH_BANK_SIZE && rest < 2040
    requires h == PageHeader(headers[|headers| - 1].number + 1, PAGE_HEADER_SIZE + rest)
    requires AllStored(coder, data', Base(headers), log + [e], low) && |data'| == |data| + 2040
    requires data'[|data| + rest..] == Erased(2040 - rest)
    ensures StoreOk(coder, headers + [h], data', pageCount, PAGE_HEADER_SIZE + rest, log + [e], low,
                    firsts + [|log| + 1])
  {
    var from, to := PageStart(headers[0]), Position(headers[|headers| - 1].number, offset);
    StoreListed(coder, headers, data, pageCount, offset, log, low, firsts);
    ChainedAppend(log, low, from, to, e);
    PagesGrow(headers, firsts, log, low, from, to, e, h);
  }

  /** StoreGrow, for the image of the container. */
  lemma WrittenAcross(coder: Coder, headers: seq<PageHeader>, data: seq<uint8>, pageCount: nat, offset: nat,
                      log: seq<Item>, low: nat, firsts: seq<nat>, e: Item, image: seq<uint8>, data': seq<uint8>,
                      rest: nat, h: PageHeader)
    requires StoreOk(coder, headers, data, pageCount, offset, log, low, firsts)
    requires IsImage(coder, e, image) && e.pos == Position(headers[|headers| - 1].number, offset)
    requires |headers| < pageCount && rest == offset + |image| - CONFIG_FLASH_BANK_SIZE
    requires h == PageHeader(headers[|headers| - 1].number + 1, PAGE_HEADER_SIZE + rest)
    requires var o := 2040 * (|headers| - 1) + offset - PAGE_HEADER_SIZE;
             o <= |data| && rest < 2040 && data' == data[..o] + image + Erased(2040 - rest)
    ensures StoreOk(coder, headers + [h], data', pageCount, PAGE_HEADER_SIZE + rest, log + [e], low,
                    firsts + [|log| + 1])
  {
    var o := 2040 * (|headers| - 1) + offset - PAGE_HEADER_SIZE;
    NewPageErased(data, o, image, data', 2040 - rest);
    LogWritten(coder, headers, data, pageCount, offset, log, low, firsts, e, image, data');
    StoreGrow(coder, headers, data, pageCount, offset, log, low, firsts, e, data', rest, h);
  }

  /** The first page is given up with the containers that start in it. */
  lemma StoreRelease(coder: Coder, headers: seq<PageHeader>, data: seq<uint8>, pageCount: nat, offset: nat,
                     log: seq<Item>, low: nat, firsts: seq<nat>)
    requires StoreOk(coder, headers, data, pageCount, offset, log, low, firsts) && |headers| > 1
    ensures low <= firsts[1] <= |log|
    ensures StoreOk(coder, headers[1..], data[2040..], pageCount, offset, log, firsts[1], firsts[1..])
  {
    var base, from, to := Base(headers), PageStart(headers[0]), Position(headers[|headers| - 1].number, offset);
    StoreListed(coder, headers, data, pageCount, offset, log, low, firsts);
    PagesRelease(headers, firsts, log, low, from, to);
    assert PageOk(headers, firsts, log, low, to, 1);
    ChainedFrom(log, low, from, to, firsts[1]);
    ChainedItem(log, low, from, to, firsts[1]);
    forall j | firsts[1] <= j < |log|
      ensures base + 2040 <= log[j].pos
    {
      ChainedOrder(log, low, from, to, firsts[1], j);
    }
    AllStoredRelease(coder, data, base, log, low, firsts[1], 2040);
    assert data[2040..][to - base - 2040..] == data[to - base..];
  }

  /** A deleted container keeps its place. */
  lemma StoreDelete(coder: Coder, headers: seq<PageHeader>, data: seq<uint8>, pageCount: nat, offset: nat,
                    log: seq<Item>, low: nat, firsts: seq<nat>, i: nat, data': seq<uint8>)
    requires StoreOk(coder, headers, data, pageCount, offset, log, low, firsts) && low <= i < |log|
    requires Stored(coder, data, Base(headers), log[i])
    requires var o := log[i].pos - Base(headers);
             data' == data[..o] + HeaderBytes(HeaderFor(coder, Deleted(log[i]))) + data[o + CONTAINER_SIZE..]
    ensures StoreOk(coder, headers, data', pageCount, offset, log[i := Deleted(log[i])], low, firsts)
  {
    var base, from, to := Base(headers), PageStart(headers[0]), Position(headers[|headers| - 1].number, offset);
    HeaderRoundTrip(HeaderFor(coder, Deleted(log[i])));
    ChainedItem(log, low, from, to, i);
    AllStoredDelete(coder, data, base, log, low, from, to, i, data');
    ChainedDelete(log, low, from, to, i);
    PagesDelete(headers, firsts, log, low, to, i);
    assert data'[to - base..] == data[to - base..];
  }

  /** A tracker is on page k or later exactly when it is past all containers that start before it. */
  lemma PageOfPlace(coder: Coder, headers: seq<PageHeader>, data: seq<uint8>, pageCount: nat, offset: nat,
                    log: seq<Item>, low: nat, firsts: seq<nat>, t: Tracker, r: nat, k: nat)
    requires StoreOk(coder, headers, data, pageCount, offset, log, low, firsts) && low <= r <= |log|
    requires AtPos(headers, t, PosAt(log, r, Position(headers[|headers| - 1].number, offset))) && k < |headers|
    ensures k < |firsts| && (t.index >= k <==> firsts[k] <= r) && low <= firsts[k] <= |log|
  {
    var from, to := PageStart(headers[0]), Position(headers[|headers| - 1].number, offset);
    assert PageOk(headers, firsts, log, low, to, k);
    if firsts[k] <= r {
      ChainedOrder(log, low, from, to, firsts[k], r);
    } else {
      ChainedOrder(log, low, from, to, r, firsts[k] - 1);
    }
  }
}
