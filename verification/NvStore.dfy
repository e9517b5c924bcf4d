/** The storage of NVMEM containers: pages, the place of the next write, and reading one container
    after the other. */
module NvStore {
  import opened Common
  import opened Flash
  import opened NvLayout
  import opened NvLog

  /** struct nn_page_header */
  datatype PageHeader = PageHeader(number: nat, dataOffset: nat)

  /** struct access_tracker: the main tracker, the last container and the last finalized delimiter.
      Pages are known by their numbers. */
  datatype Tracker = Tracker(index: nat, page: Option<nat>, offset: nat, cPage: nat, cOffset: nat,
                             dPage: Option<nat>, dOffset: nat)

  const EMPTY_TRACKER := Tracker(0, None, 0, 0, 0, None, 0)

  datatype Code = Success | EndOfLog | Invalid | Overflow | TryAgain | Reboot | PowerLost | OutOfBounds

  /** The position of an offset in a page. */
  function Position(page: int, offset: nat): int { 2040 * page + offset - PAGE_HEADER_SIZE }

  /** The position of the first container that starts in a page. */
  function PageStart(h: PageHeader): int { Position(h.number, h.dataOffset) }

  // ----- what holds of the state

  /** Pages follow each other, and each knows where its first container starts: that of index
      firsts[k] for page k. */
  ghost predicate PagesOk(headers: seq<PageHeader>, firsts: seq<nat>, log: seq<Item>, low: nat, to: nat) {
    && |headers| == |firsts| > 0 && firsts[0] == low
    && (forall k {:trigger PageOk(headers, firsts, log, low, to, k)} :: 0 <= k < |headers| ==>
          PageOk(headers, firsts, log, low, to, k))
  }

  ghost predicate PageOk(headers: seq<PageHeader>, firsts: seq<nat>, log: seq<Item>, low: nat, to: nat, k: nat)
    requires k < |headers| == |firsts|
  {
    && headers[k].number == headers[0].number + k
    && PAGE_HEADER_SIZE <= headers[k].dataOffset < CONFIG_FLASH_BANK_SIZE
    && low <= firsts[k] <= |log| && PageStart(headers[k]) == PosAt(log, firsts[k], to)
    && (firsts[k] > low ==> log[firsts[k] - 1].pos < 2040 * headers[k].number)
  }

  ghost predicate StoreOk(coder: Coder, headers: seq<PageHeader>, data: seq<uint8>, pageCount: nat, offset: nat,
                          log: seq<Item>, low: nat, firsts: seq<nat>) {
    && CoderOk(coder) && 0 < |headers| <= pageCount && |data| == 2040 * |headers|
    && PAGE_HEADER_SIZE <= offset < CONFIG_FLASH_BANK_SIZE && offset % 4 == 0
    && var base, from, to := 2040 * headers[0].number, PageStart(headers[0]),
                             Position(headers[|headers| - 1].number, offset);
       && base <= from <= to && PagesOk(headers, firsts, log, low, to)
       && Chained(log, low, from, to) && AllStored(coder, data, base, log, low)
       && base <= to <= base + |data| && data[to - base..] == Erased(base + |data| - to)
  }

  /** A container that starts before a page ends before the first of that page. */
  lemma EndsBefore(headers: seq<PageHeader>, firsts: seq<nat>, log: seq<Item>, low: nat, from: nat, to: nat, i: nat,
                   k: nat)
    requires PagesOk(headers, firsts, log, low, to) && Chained(log, low, from, to) && low <= i < |log| && k < |headers|
    requires log[i].pos < 2040 * headers[k].number
    ensures ItemEnd(log[i]) <= PageStart(headers[k])
  {
    assert PageOk(headers, firsts, log, low, to, k);
    if firsts[k] <= i {
      ChainedOrder(log, low, from, to, firsts[k], i);
    } else {
      ChainedOrder(log, low, from, to, i, firsts[k]);
    }
  }

  // ----- reading

  /** The pages of the list, with the bytes of their data areas. */
  ghost predicate Listed(headers: seq<PageHeader>, data: seq<uint8>) {
    && |headers| > 0 && |data| == 2040 * |headers|
    && (forall k {:trigger headers[k]} :: 0 <= k < |headers| ==>
          && headers[k].number == headers[0].number + k
          && PAGE_HEADER_SIZE <= headers[k].dataOffset < CONFIG_FLASH_BANK_SIZE)
  }

  function Base(headers: seq<PageHeader>): nat
    requires |headers| > 0
  {
    2040 * headers[0].number
  }

  /** The main tracker is at a position. */
  ghost predicate AtPos(headers: seq<PageHeader>, t: Tracker, p: nat)
    requires |headers| > 0
  {
    && t.index < |headers| && t.page == Some(headers[0].number + t.index)
    && PAGE_HEADER_SIZE <= t.offset < CONFIG_FLASH_BANK_SIZE && p == Position(headers[0].number + t.index, t.offset)
  }

  /** Or it has not been used yet, and the position is that of the first container. */
  ghost predicate Starts(headers: seq<PageHeader>, t: Tracker, p: nat)
    requires |headers| > 0
  {
    AtPos(headers, t, p) || (t.index == 0 && t.offset == 0 && p == PageStart(headers[0]))
  }

  /** list_element_to_ph */
  function ListElement(headers: seq<PageHeader>, k: nat): Option<nat> {
    if k < |headers| then Some(headers[k].number) else None
  }

  /** A read from p on stays clear of the first container of a page it reaches. */
  ghost predicate Clear(headers: seq<PageHeader>, p: nat, n: nat) {
    forall k {:trigger headers[k]} :: 0 <= k < |headers| && p < 2040 * headers[k].number <= p + n ==>
      p + n <= PageStart(headers[k])
  }

  /** The start of nvmem_read_bytes: an unused tracker goes to the first container. */
  method Begin(headers: seq<PageHeader>, data: seq<uint8>, t: Tracker, fetch: bool, ghost p: nat) returns (t': Tracker)
    requires Listed(headers, data) && Starts(headers, t, p)
    ensures AtPos(headers, t', p) && t'.dPage == t.dPage && t'.dOffset == t.dOffset
    ensures if fetch then t'.page == Some(t'.cPage) && t'.cOffset == t'.offset
            else t'.cPage == t.cPage && t'.cOffset == t.cOffset
  {
    t' := t;
    if t'.index == 0 && t'.offset == 0 {
      t' := t'.(page := ListElement(headers, 0), offset := headers[0].dataOffset);
    }
    if fetch {
      t' := t'.(cOffset := t'.offset, cPage := t'.page.value);
    }
  }

  /** The end of nvmem_read_bytes: the rest is read from the next page, if there is one. */
  method ReadOn(headers: seq<PageHeader>, data: seq<uint8>, t: Tracker, togo: nat, fetch: bool)
    returns (rc: Code, t': Tracker, bytes: seq<uint8>)
    requires Listed(headers, data) && t.index < |headers|
    requires t.index + 1 < |headers| ==> PAGE_HEADER_SIZE + togo <= headers[t.index + 1].dataOffset
    requires t.index + 1 == |headers| ==> togo == 0
    ensures rc == Success && t'.index == t.index + 1 && t'.page == ListElement(headers, t.index + 1)
    ensures t' == t.(index := t'.index, page := t'.page, offset := t'.offset)
    ensures t'.offset == if t.index + 1 < |headers| then PAGE_HEADER_SIZE + togo else t.offset
    ensures 2040 * (t.index + 1) + togo <= |data| && bytes == data[2040 * (t.index + 1)..2040 * (t.index + 1) + togo]
  {
    t' := t.(index := t.index + 1, page := ListElement(headers, t.index + 1));
    bytes := [];
    if t'.page.None? && togo > 0 {
      return if fetch then TryAgain else Reboot, t', bytes;
    }
    if t'.page.Some? {
      if headers[t'.index].dataOffset < PAGE_HEADER_SIZE + togo {
        return Reboot, t', bytes;
      }
      bytes := data[2040 * t'.index..2040 * t'.index + togo];
      t' := t'.(offset := PAGE_HEADER_SIZE + togo);
    }
    return Success, t', bytes;
  }

  /** nvmem_read_bytes */
  method ReadBytes(headers: seq<PageHeader>, data: seq<uint8>, t: Tracker, n: nat, fetch: bool, ghost p: nat)
    returns (rc: Code, t': Tracker, bytes: seq<uint8>)
    requires Listed(headers, data) && Starts(headers, t, p) && 0 < n && Base(headers) <= p
    requires p + n <= Base(headers) + |data| && Clear(headers, p, n)
    ensures rc == Success && bytes == data[p - Base(headers)..p - Base(headers) + n]
    ensures if p + n < Base(headers) + |data| then AtPos(headers, t', p + n)
            else t'.page == None && t'.index == |headers| && t'.offset + n == CONFIG_FLASH_BANK_SIZE
    ensures if fetch then Position(t'.cPage, t'.cOffset) == p && PAGE_HEADER_SIZE <= t'.cOffset < CONFIG_FLASH_BANK_SIZE
            else t'.cPage == t.cPage && t'.cOffset == t.cOffset
    ensures t'.dPage == t.dPage && t'.dOffset == t.dOffset
  {
    t' := Begin(headers, data, t, fetch, p);
    var at := Position(t'.page.value - headers[0].number, t'.offset);
    if t'.offset + n < CONFIG_FLASH_BANK_SIZE {
      return Success, t'.(offset := t'.offset + n), data[at..at + n];
    }
    var first := CONFIG_FLASH_BANK_SIZE - t'.offset;
    NextIsClear(headers, t', p, n);
    var rest;
    rc, t', rest := ReadOn(headers, data, t', n - first, fetch);
    bytes := data[at..at + first] + rest;
  }

  lemma NextIsClear(headers: seq<PageHeader>, t: Tracker, p: nat, n: nat)
    requires |headers| > 0 && AtPos(headers, t, p) && Clear(headers, p, n) && t.offset + n >= CONFIG_FLASH_BANK_SIZE
    requires forall k {:trigger headers[k]} :: 0 <= k < |headers| ==> headers[k].number == headers[0].number + k
    requires p + n <= 2040 * (headers[0].number + |headers|)
    ensures var togo := n - (CONFIG_FLASH_BANK_SIZE - t.offset);
            if t.index + 1 < |headers| then PAGE_HEADER_SIZE + togo <= headers[t.index + 1].dataOffset else togo == 0
  {
  }

  // ----- one container

  /** Item i can be read: its header and the rest of it are clear of page starts. */
  lemma ItemReadable(coder: Coder, headers: seq<PageHeader>, data: seq<uint8>, pageCount: nat, offset: nat,
                     log: seq<Item>, low: nat, firsts: seq<nat>, i: nat)
    requires StoreOk(coder, headers, data, pageCount, offset, log, low, firsts) && low <= i < |log|
    ensures Listed(headers, data) && Stored(coder, data, Base(headers), log[i])
    ensures var p, n := log[i].pos, AlignedSize(|log[i].body|);
            Base(headers) <= p && Clear(headers, p, CONTAINER_SIZE)
                && Clear(headers, p + CONTAINER_SIZE, n - CONTAINER_SIZE)
    ensures ItemEnd(log[i]) <= Position(headers[|headers| - 1].number, offset) < Base(headers) + |data|
  {
    var from, to := PageStart(headers[0]), Position(headers[|headers| - 1].number, offset);
    ItemClear(coder, headers, data, pageCount, offset, log, low, firsts, i, from, to);
    ChainedItem(log, low, from, to, i);
    assert Stored(coder, data, Base(headers), log[i]);
    StoreListed(coder, headers, data, pageCount, offset, log, low, firsts);
  }

  lemma StoreListed(coder: Coder, headers: seq<PageHeader>, data: seq<uint8>, pageCount: nat, offset: nat,
                    log: seq<Item>, low: nat, firsts: seq<nat>)
    requires StoreOk(coder, headers, data, pageCount, offset, log, low, firsts)
    ensures Listed(headers, data)
    ensures Position(headers[|headers| - 1].number, offset) < Base(headers) + |data|
    ensures Position(headers[|headers| - 1].number, offset) >= 2040 * headers[|headers| - 1].number
  {
    var to := Position(headers[|headers| - 1].number, offset);
    forall k | 0 <= k < |headers|
      ensures headers[k].number == headers[0].number + k
      ensures PAGE_HEADER_SIZE <= headers[k].dataOffset < CONFIG_FLASH_BANK_SIZE
    {
      assert PageOk(headers, firsts, log, low, to, k);
    }
  }

  lemma ItemClear(coder: Coder, headers: seq<PageHeader>, data: seq<uint8>, pageCount: nat, offset: nat,
                  log: seq<Item>, low: nat, firsts: seq<nat>, i: nat, from: nat, to: nat)
    requires StoreOk(coder, headers, data, pageCount, offset, log, low, firsts) && low <= i < |log|
    requires from == PageStart(headers[0]) && to == Position(headers[|headers| - 1].number, offset)
    ensures var p, n := log[i].pos, AlignedSize(|log[i].body|);
            Clear(headers, p, CONTAINER_SIZE) && Clear(headers, p + CONTAINER_SIZE, n - CONTAINER_SIZE)
  {
    forall k | 0 <= k < |headers| && log[i].pos < 2040 * headers[k].number
      ensures ItemEnd(log[i]) <= PageStart(headers[k])
    {
      EndsBefore(headers, firsts, log, low, from, to, i, k);
    }
  }

  /** What the header of item i, or the end of the log, reads as. */
  lemma HeaderRead(coder: Coder, headers: seq<PageHeader>, data: seq<uint8>, pageCount: nat, offset: nat,
                   log: seq<Item>, low: nat, firsts: seq<nat>, i: nat, p: nat)
    requires StoreOk(coder, headers, data, pageCount, offset, log, low, firsts) && low <= i <= |log|
    requires p == PosAt(log, i, Position(headers[|headers| - 1].number, offset))
    ensures Listed(headers, data) && Base(headers) <= p && p + CONTAINER_SIZE <= Base(headers) + |data|
    ensures Clear(headers, p, CONTAINER_SIZE)
    ensures var c := HeaderOf(data[p - Base(headers)..p - Base(headers) + CONTAINER_SIZE]);
            if i < |log| then ItemOk(log[i]) && c == HeaderFor(coder, log[i]) else c.kind == NN_OBJ_ERASED
  {
    StoreListed(coder, headers, data, pageCount, offset, log, low, firsts);
    if i < |log| {
      ItemReadable(coder, headers, data, pageCount, offset, log, low, firsts, i);
      HeaderRoundTrip(HeaderFor(coder, log[i]));
    } else {
      EndErased(headers, data, p);
    }
  }

  lemma EndErased(headers: seq<PageHeader>, data: seq<uint8>, p: nat)
    requires |headers| > 0 && Base(headers) <= p && p + CONTAINER_SIZE <= Base(headers) + |data|
    requires data[p - Base(headers)..] == Erased(Base(headers) + |data| - p)
    ensures HeaderOf(data[p - Base(headers)..p - Base(headers) + CONTAINER_SIZE]).kind == NN_OBJ_ERASED
  {
    ErasedHeader();
    ErasedAt(data, p - Base(headers));
  }

  lemma ErasedAt(data: seq<uint8>, o: nat)
    requires o + CONTAINER_SIZE <= |data| && data[o..] == Erased(|data| - o)
    ensures data[o..o + CONTAINER_SIZE] == ERASED_HEADER
  {
    var rest := data[o..];
    assert data[o] == rest[0] && data[o + 1] == rest[1] && data[o + 2] == rest[2] && data[o + 3] == rest[3];
  }

  lemma PlaceOfSalt(page: nat, offset: nat, hash: nat)
    requires PAGE_HEADER_SIZE <= offset < CONFIG_FLASH_BANK_SIZE
    ensures Position(page, offset) >= 0 && SaltAt(Position(page, offset), hash) == Salt(page, offset, hash)
  {
  }

  /** container_is_valid */
  predicate ContainerIsValid(coder: Coder, c: Container, body: seq<uint8>) {
    && (c.kind == NN_OBJ_OLD_COPY || c.kind == c.copy)
    && c.copy < 8 && c.generation < GENERATIONS && |body| <= MAX_OBJECT_SIZE
    && HashOf(coder, c.copy, c.generation, body) == c.hash
  }

  lemma BodyRead(coder: Coder, data: seq<uint8>, base: nat, e: Item, bytes: seq<uint8>)
    requires CoderOk(coder) && Stored(coder, data, base, e)
    requires bytes == data[e.pos + CONTAINER_SIZE - base..ItemEnd(e) - base]
    ensures coder.cipher(SaltAt(e.pos, HashOf(coder, e.copy, e.generation, e.body)), bytes[..|e.body|]) == e.body
  {
    var o := e.pos + CONTAINER_SIZE - base;
    assert bytes[..|e.body|] == data[o..o + |e.body|];
  }

  /** The rest of a container after its header, decrypted and verified. */
  method ReadBody(coder: Coder, headers: seq<PageHeader>, data: seq<uint8>, t: Tracker, c: Container, ghost e: Item)
    returns (rc: Code, t': Tracker, body: seq<uint8>)
    requires Listed(headers, data) && Stored(coder, data, Base(headers), e) && CoderOk(coder)
    requires c == HeaderFor(coder, e) && AtPos(headers, t, e.pos + CONTAINER_SIZE)
    requires Clear(headers, e.pos + CONTAINER_SIZE, AlignedSize(|e.body|) - CONTAINER_SIZE)
    requires ItemEnd(e) < Base(headers) + |data|
    requires Position(t.cPage, t.cOffset) == e.pos && PAGE_HEADER_SIZE <= t.cOffset < CONFIG_FLASH_BANK_SIZE
    ensures rc == Success && body == e.body && AtPos(headers, t', ItemEnd(e))
    ensures t'.dPage == t.dPage && t'.dOffset == t.dOffset && t'.cPage == t.cPage && t'.cOffset == t.cOffset
  {
    var remaining := AlignedSize(c.size) - CONTAINER_SIZE;
    t', body := t, [];
    if remaining > 0 {
      if remaining > CONFIG_FLASH_BANK_SIZE - CONTAINER_SIZE {
        return Reboot, t', body;
      }
      var bytes;
      rc, t', bytes := ReadBytes(headers, data, t, remaining, false, e.pos + CONTAINER_SIZE);
      if rc != Success {
        return;
      }
      PlaceOfSalt(t.cPage, t.cOffset, c.hash);
      BodyRead(coder, data, Base(headers), e, bytes);
      body := coder.cipher(Salt(t'.cPage, t'.cOffset, c.hash), bytes[..c.size]);
    }
    rc := if ContainerIsValid(coder, c, body) then Success else Invalid;
  }

  /** At a position there is this item, or the end of the log. */
  ghost predicate Ready(coder: Coder, headers: seq<PageHeader>, data: seq<uint8>, p: nat, e: Option<Item>) {
    && CoderOk(coder) && Listed(headers, data) && Base(headers) <= p && p + CONTAINER_SIZE <= Base(headers) + |data|
    && Clear(headers, p, CONTAINER_SIZE)
    && var c := HeaderOf(data[p - Base(headers)..p - Base(headers) + CONTAINER_SIZE]);
       match e
       case None => c.kind == NN_OBJ_ERASED && 2040 * headers[|headers| - 1].number <= p
       case Some(item) =>
         && Stored(coder, data, Base(headers), item) && item.pos == p && c == HeaderFor(coder, item)
         && Clear(headers, p + CONTAINER_SIZE, AlignedSize(|item.body|) - CONTAINER_SIZE)
         && ItemEnd(item) < Base(headers) + |data|
  }

  lemma StoreReady(coder: Coder, headers: seq<PageHeader>, data: seq<uint8>, pageCount: nat, offset: nat,
                   log: seq<Item>, low: nat, firsts: seq<nat>, i: nat)
    requires StoreOk(coder, headers, data, pageCount, offset, log, low, firsts) && low <= i <= |log|
    ensures var p := PosAt(log, i, Position(headers[|headers| - 1].number, offset));
            p >= 0 && Ready(coder, headers, data, p, if i < |log| then Some(log[i]) else None)
  {
    var p := PosAt(log, i, Position(headers[|headers| - 1].number, offset));
    HeaderRead(coder, headers, data, pageCount, offset, log, low, firsts, i, p);
    if i < |log| {
      ItemReadable(coder, headers, data, pageCount, offset, log, low, firsts, i);
      ItemReady(coder, headers, data, log[i]);
    } else {
      StoreListed(coder, headers, data, pageCount, offset, log, low, firsts);
    }
  }

  lemma ItemReady(coder: Coder, headers: seq<PageHeader>, data: seq<uint8>, e: Item)
    requires CoderOk(coder) && Listed(headers, data) && Stored(coder, data, Base(headers), e)
    requires Base(headers) <= e.pos && e.pos + CONTAINER_SIZE <= Base(headers) + |data|
    requires ItemEnd(e) < Base(headers) + |data|
    requires Clear(headers, e.pos, CONTAINER_SIZE)
    requires Clear(headers, e.pos + CONTAINER_SIZE, AlignedSize(|e.body|) - CONTAINER_SIZE)
    requires HeaderOf(data[e.pos - Base(headers)..e.pos - Base(headers) + CONTAINER_SIZE]) == HeaderFor(coder, e)
    ensures Ready(coder, headers, data, e.pos, Some(e))
  {
  }

  /** One round of get_next_object: reads a container and verifies it, or finds the end. */
  method ReadOne(coder: Coder, headers: seq<PageHeader>, data: seq<uint8>, t: Tracker, ghost p: nat,
                 ghost e: Option<Item>)
    returns (rc: Code, t': Tracker, item: Item)
    requires Ready(coder, headers, data, p, e) && Starts(headers, t, p)
    ensures t'.dPage == t.dPage && t'.dOffset == t.dOffset
    ensures e.None? ==> rc == EndOfLog && AtPos(headers, t', p)
    ensures e.Some? ==>
              && rc == Success && item == e.value && AtPos(headers, t', ItemEnd(e.value))
              && Position(t'.cPage, t'.cOffset) == e.value.pos
              && PAGE_HEADER_SIZE <= t'.cOffset < CONFIG_FLASH_BANK_SIZE
  {
    item := Item(0, 0, 0, 0, []);
    var bytes;
    rc, t', bytes := ReadBytes(headers, data, t, CONTAINER_SIZE, true, p);
    var c := HeaderOf(bytes);
    if c.kind == NN_OBJ_ERASED || rc == TryAgain {
      t' := RollBack(headers, data, t', p);
      return EndOfLog, t', item;
    }
    if rc != Success {
      return;
    }
    var body;
    rc, t', body := ReadBody(coder, headers, data, t', c, e.value);
    PlaceOfSalt(t'.cPage, t'.cOffset, c.hash);
    item := Item(Position(t'.cPage, t'.cOffset), c.kind, c.copy, c.generation, body);
  }

  /** Puts a tracker that has read an erased header back before it. */
  method RollBack(headers: seq<PageHeader>, data: seq<uint8>, t: Tracker, ghost p: nat) returns (t': Tracker)
    requires Listed(headers, data) && 2040 * headers[|headers| - 1].number <= p < Base(headers) + |data|
    requires p + CONTAINER_SIZE <= Base(headers) + |data|
    requires Position(t.cPage, t.cOffset) == p && PAGE_HEADER_SIZE <= t.cOffset < CONFIG_FLASH_BANK_SIZE
    requires if p + CONTAINER_SIZE < Base(headers) + |data| then AtPos(headers, t, p + CONTAINER_SIZE)
             else t.index == |headers| && t.offset + CONTAINER_SIZE == CONFIG_FLASH_BANK_SIZE
    ensures AtPos(headers, t', p) && t'.dPage == t.dPage && t'.dOffset == t.dOffset
  {
    t' := t.(offset := t.cOffset, page := Some(t.cPage));
    // A header at the very end of a page has moved the tracker to the next.
    if CONFIG_FLASH_BANK_SIZE - t'.offset <= CONTAINER_SIZE {
      t' := t'.(index := t'.index - 1);
    }
  }

  /** ReadOne, for item i of the log. */
  method ReadAt(coder: Coder, headers: seq<PageHeader>, data: seq<uint8>, t: Tracker, ghost pageCount: nat,
                ghost offset: nat, ghost log: seq<Item>, ghost low: nat, ghost firsts: seq<nat>, ghost to: nat,
                ghost i: nat)
    returns (rc: Code, t': Tracker, item: Item)
    requires StoreOk(coder, headers, data, pageCount, offset, log, low, firsts) && low <= i <= |log|
    requires to == Position(headers[|headers| - 1].number, offset) && Starts(headers, t, PosAt(log, i, to))
    ensures t'.dPage == t.dPage && t'.dOffset == t.dOffset
    ensures i == |log| ==> rc == EndOfLog && AtPos(headers, t', to)
    ensures i < |log| ==>
              && rc == Success && item == log[i] && ItemOk(item) && AtPos(headers, t', PosAt(log, i + 1, to))
              && Position(t'.cPage, t'.cOffset) == log[i].pos
              && PAGE_HEADER_SIZE <= t'.cOffset < CONFIG_FLASH_BANK_SIZE
  {
    StoreReady(coder, headers, data, pageCount, offset, log, low, firsts, i);
    ChainedItem(log, low, PageStart(headers[0]), to, i);
    rc, t', item := ReadOne(coder, headers, data, t, PosAt(log, i, to), if i < |log| then Some(log[i]) else None);
  }

  const NO_ITEM := Item(0, 0, 0, 0, [])

  // ----- the next object

  ghost predicate Visible(e: Item, includeDeleted: bool) {
    includeDeleted || e.kind != NN_OBJ_OLD_COPY || e.copy == NN_OBJ_TRANSACTION_DEL
  }

  /** The next item a reader at item i is given, or the end of the log. */
  ghost function NextVisible(log: seq<Item>, i: nat, includeDeleted: bool): (j: nat)
    requires i <= |log|
    ensures i <= j <= |log| && (j < |log| ==> Visible(log[j], includeDeleted))
    ensures forall k :: i <= k < j ==> !Visible(log[k], includeDeleted)
    decreases |log| - i
  {
    if i == |log| || Visible(log[i], includeDeleted) then i else NextVisible(log, i + 1, includeDeleted)
  }

  /** A deleted delimiter marks a transaction that was completed. */
  predicate IsFinalized(e: Item) { e.copy == NN_OBJ_TRANSACTION_DEL && e.kind == NN_OBJ_OLD_COPY }

  /** get_next_object.  ch is the container read before; at the end of the log, the last one read stays,
      even if it was stepped over. */
  method GetNextObject(coder: Coder, headers: seq<PageHeader>, data: seq<uint8>, t: Tracker, includeDeleted: bool,
                       ch: Item, ghost pageCount: nat, ghost offset: nat, ghost log: seq<Item>, ghost low: nat,
                       ghost firsts: seq<nat>, ghost to: nat, ghost i: nat)
    returns (rc: Code, t': Tracker, item: Item, ghost j: nat)
    requires StoreOk(coder, headers, data, pageCount, offset, log, low, firsts) && low <= i <= |log|
    requires to == Position(headers[|headers| - 1].number, offset) && Starts(headers, t, PosAt(log, i, to))
    ensures j == NextVisible(log, i, includeDeleted)
    ensures rc == if NextVisible(log, i, includeDeleted) < |log| then Success else EndOfLog
    ensures rc == Success ==> item == log[NextVisible(log, i, includeDeleted)]
    ensures if j == |log| then rc == EndOfLog && AtPos(headers, t', to)
              && item == (if i < |log| then log[|log| - 1] else ch)
            else
              && rc == Success && item == log[j] && ItemOk(item) && AtPos(headers, t', PosAt(log, j + 1, to))
              && Position(t'.cPage, t'.cOffset) == log[j].pos
              && PAGE_HEADER_SIZE <= t'.cOffset < CONFIG_FLASH_BANK_SIZE
    ensures if j < |log| && IsFinalized(log[j]) then t'.dPage == Some(t'.cPage) && t'.dOffset == t'.cOffset
            else t'.dPage == t.dPage && t'.dOffset == t.dOffset
  {
    t', j, item := t, i, ch;
    while true
      invariant i <= j <= |log| && NextVisible(log, j, includeDeleted) == NextVisible(log, i, includeDeleted)
      invariant Starts(headers, t', PosAt(log, j, to)) && t'.dPage == t.dPage && t'.dOffset == t.dOffset
      invariant item == if i < j then log[j - 1] else ch
      decreases |log| - j
    {
      var got;
      rc, t', got := ReadAt(coder, headers, data, t', pageCount, offset, log, low, firsts, to, j);
      if rc != Success {
        return;
      }
      item := got;
      if item.copy == NN_OBJ_TRANSACTION_DEL {
        if item.kind == NN_OBJ_OLD_COPY {
          t' := t'.(dPage := Some(t'.cPage), dOffset := t'.cOffset);
        }
        return;
      }
      if includeDeleted || item.kind != NN_OBJ_OLD_COPY {
        return;
      }
      j := j + 1;
    }
  }
}
