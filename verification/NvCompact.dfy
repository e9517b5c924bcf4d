/** Compaction: live objects are written again at the end, and the pages before them released. */
module NvCompact {
  import opened Common
  import opened NvLayout
  import opened NvLog
  import opened NvStore
  import opened NvWrite
  import opened NvLive
  import opened NvDevice

  /** The live objects in flash. */
  ghost function LiveObjs(s: Store): seq<Obj>
    reads s
  {
    Live(s.log, s.low, |s.log|)
  }

  /** The last transaction was completed. */
  ghost predicate EndsFinal(s: Store)
    reads s
  {
    s.low == |s.log| || (|s.log| > 0 && IsFinalized(s.log[|s.log| - 1]))
  }

  /** Compaction can start on an empty page: it is on one, or there is a free one. */
  ghost predicate FreshPage(s: Store)
    reads s
  {
    s.offset == PAGE_HEADER_SIZE || s.index + 1 < s.pageCount
  }

  /** The bytes compaction can write to: a page that it does not start on is given up. */
  ghost function Available(s: Store): int
    reads s
  {
    if s.offset != PAGE_HEADER_SIZE && s.index + 1 < s.pageCount then s.Free() - (CONFIG_FLASH_BANK_SIZE - s.offset)
    else s.Free()
  }

  /** compaction_needed */
  predicate CompactionNeeded(s: Store)
    reads s
  {
    s.index >= s.pageCount / 2 + s.pageCount / 4
  }

  /** Fills up the current page with a deleted object and a delimiter, when there is a page after it.
      The object is made of what the scratch buffer holds. */
  method FillPage(s: Store, scratch: seq<uint8>) returns (rc: Code)
    requires s.Valid() && |scratch| == CONFIG_FLASH_BANK_SIZE
    modifies s`headers, s`data, s`index, s`offset, s`log, s`firsts
    ensures rc == Success && s.Valid() && s.low <= |old(s.log)| <= |s.log|
    ensures s.log[..|old(s.log)|] == old(s.log) && forall k :: |old(s.log)| <= k < |s.log| ==> !IsLive(s.log[k])
    ensures old(EndsFinal(s)) ==> EndsFinal(s)
    ensures old(s.headers) <= s.headers
    ensures if old(FreshPage(s)) then s.offset == PAGE_HEADER_SIZE
            else s.log == old(s.log) && s.offset == old(s.offset) && s.firsts == old(s.firsts)
    ensures s.Free() == old(Available(s))
  {
    rc := Success;
    s.LowInLog();
    if s.offset != PAGE_HEADER_SIZE && s.offset != CONFIG_FLASH_BANK_SIZE && s.index + 1 < s.pageCount {
      var twoContainers := 2 * CONTAINER_SIZE;
      var toGo := CONFIG_FLASH_BANK_SIZE - s.offset;
      if toGo >= twoContainers {
        rc := s.SaveContainer(NN_OBJ_OLD_COPY, 0, scratch[..toGo - twoContainers]);
      }
      rc := CloseLast(s);
    }
  }

  /** Ends a page that has room for just the delimiter. */
  method CloseLast(s: Store) returns (rc: Code)
    requires s.Valid() && s.offset + CONTAINER_SIZE == CONFIG_FLASH_BANK_SIZE && s.index + 1 < s.pageCount
    modifies s`headers, s`data, s`index, s`offset, s`log, s`firsts
    ensures rc == Success && s.Valid() && s.offset == PAGE_HEADER_SIZE && EndsFinal(s) && old(s.headers) <= s.headers
    ensures s.Free() == old(s.Free()) - CONTAINER_SIZE
    ensures |s.log| == |old(s.log)| + 1 && s.log[..|old(s.log)|] == old(s.log) && !IsLive(s.log[|old(s.log)|])
  {
    rc := s.AddFinalDelimiter();
  }

  // ----- the loop

  /** The live objects among the items up to r have been written again after all of them. */
  ghost predicate Copied(log: seq<Item>, was: seq<Item>, low: nat, r: nat) {
    && |was| <= |log| && log[..|was|] == was && low <= r <= |was|
    && Live(log, |was|, |log|) == Live(was, low, r)
  }

  /** Compaction stops at a page, the first container of which is item f; the n items that were there
      end at position end on that page. */
  ghost predicate Fenced(s: Store, fence: nat, f: nat, n: nat, end: int)
    requires s.Valid()
    reads s
  {
    && s.headers[0].number <= fence < s.headers[0].number + |s.headers|
    && fence - s.headers[0].number < |s.firsts| && s.firsts[fence - s.headers[0].number] == f
    && n <= |s.log| && PosAtEnd(s, n) == end < 2040 * (fence + 1)
  }

  ghost function PosAtEnd(s: Store, n: nat): int
    requires |s.headers| > 0
    reads s
  {
    if n < |s.log| then s.log[n].pos else s.To()
  }

  lemma CopyOne(log: seq<Item>, was: seq<Item>, low: nat, r: nat, j: nat, log': seq<Item>)
    requires Copied(log, was, low, r) && j == NextVisible(was, r, false) && j < |was|
    requires log <= log'
    requires if IsLive(was[j]) then
               |log'| == |log| + 1 && log'[|log|].kind == was[j].kind && log'[|log|].body == was[j].body
             else log' == log
    ensures Copied(log', was, low, j + 1)
  {
    var n := |was|;
    SteppedOver(was, r);
    LiveSplit(was, low, r, j);
    LivePrefix(log, log', n, |log|);
    assert log'[..n] == was;
  }

  /** The next item a reader is given lies among those that were there. */
  lemma NextAmong(log: seq<Item>, was: seq<Item>, r: nat)
    requires was <= log && r < |was| && Visible(was[|was| - 1], false)
    ensures NextVisible(log, r, false) == NextVisible(was, r, false) < |was|
    decreases |was| - r
  {
    assert log[r] == was[r];
    if !Visible(was[r], false) {
      NextAmong(log, was, r + 1);
    }
  }

  /** Reads the next object, and writes it again if it is live. */
  method CopyNext(s: Store, at: Tracker, ghost was: seq<Item>, ghost low: nat, ghost r: nat,
                  ghost fence: nat, ghost f: nat, ghost n: nat, ghost end: int)
    returns (rc: Code, at': Tracker, saved: bool, ghost r': nat)
    requires s.Valid() && s.To() >= 0 && s.At(at, r) && Copied(s.log, was, low, r) && Fenced(s, fence, f, n, end)
    requires r < |was| ==> Visible(was[|was| - 1], false)
    requires r == |was| ==> s.log == was
    modifies s`headers, s`data, s`index, s`offset, s`log, s`firsts
    ensures rc == Success || rc == Reboot || rc == EndOfLog
    ensures rc == EndOfLog <==> r == |was|
    ensures rc == EndOfLog ==>
              s.Valid() && s.log == old(s.log) && s.headers == old(s.headers) && s.firsts == old(s.firsts)
    ensures rc == Success ==>
              && s.Valid() && s.To() >= 0 && s.At(at', r') && Copied(s.log, was, low, r')
              && r' == NextVisible(was, r, false) + 1 && AtPos(s.headers, at', PosAt(s.log, r', s.To()))
              && Fenced(s, fence, f, n, end) && (!saved ==> s.log == old(s.log))
    ensures rc == EndOfLog ==> s.Free() == old(s.Free())
    ensures rc == Success ==> s.Free() == old(s.Free()) - LiveSize(was[r' - 1])
    ensures rc == Reboot ==>
              var j := NextVisible(was, r, false);
              j < |was| && old(s.Free()) <= LiveSize(was[j])
  {
    saved, r' := false, r;
    var item;
    ghost var j, log := 0, s.log;
    rc, at', item, j := s.Next(at, false, r);
    if rc == EndOfLog {
      return;
    }
    NextAmong(s.log, was, r);
    r' := j + 1;
    rc, saved := SaveAgain(s, at', item, r', fence, f, n, end);
    if rc == Success {
      CopyOne(log, was, low, r, j, s.log);
    }
  }

  /** Writes an object again if it is live, with the next generation. */
  method SaveAgain(s: Store, at: Tracker, item: Item, ghost r: nat, ghost fence: nat, ghost f: nat, ghost n: nat,
                   ghost end: int)
    returns (rc: Code, saved: bool)
    requires s.Valid() && s.To() >= 0 && s.At(at, r) && Fenced(s, fence, f, n, end)
    requires AtPos(s.headers, at, PosAt(s.log, r, s.To())) && ItemOk(item)
    modifies s`headers, s`data, s`index, s`offset, s`log, s`firsts
    ensures rc == Success || rc == Reboot
    ensures rc == Success ==>
              && s.Valid() && s.To() >= 0 && s.At(at, r) && AtPos(s.headers, at, PosAt(s.log, r, s.To()))
              && Fenced(s, fence, f, n, end) && (saved <==> IsLive(item))
              && s.log == old(s.log) + if saved then [Item(old(s.To()), item.kind, item.kind,
                                                           (item.generation + 1) % GENERATIONS, item.body)] else []
    ensures rc == Success ==> s.Free() == old(s.Free()) - if saved then AlignedSize(|item.body|) else 0
    ensures rc == Reboot ==> IsLive(item) && old(s.Free()) <= AlignedSize(|item.body|)
  {
    ghost var hs, log, to := s.headers, s.log, s.To();
    rc, saved := Success, false;
    if item.kind == NN_OBJ_TUPLE || item.kind == NN_OBJ_TPM_RESERVED || item.kind == NN_OBJ_TPM_EVICTABLE {
      rc := s.SaveContainer(item.kind, (item.generation + 1) % GENERATIONS, item.body);
      if rc != Success {
        return;
      }
      saved := true;
      s.LowInLog();
    } else {
      assert s.log + [] == s.log;
    }
  }

  /** Releases the pages a reader has left behind. */
  method ReleasePages(s: Store, at: Tracker, ghost r: nat, ghost fence: nat, ghost f: nat, ghost n: nat,
                      ghost end: int) returns (at': Tracker)
    requires s.Valid() && s.To() >= 0 && s.At(at, r) && AtPos(s.headers, at, PosAt(s.log, r, s.To()))
    requires Fenced(s, fence, f, n, end) && at.page.value <= fence
    modifies s`headers, s`data, s`index, s`low, s`firsts
    ensures s.Valid() && s.To() >= 0 && s.At(at', r) && AtPos(s.headers, at', PosAt(s.log, r, s.To()))
    ensures at' == at.(index := 0) && Fenced(s, fence, f, n, end) && s.low >= old(s.low)
    ensures s.To() == old(s.To()) && s.Free() == old(s.Free()) + 2040 * at.index
  {
    at' := at;
    while at'.index != 0
      invariant s.Valid() && s.To() == old(s.To()) >= 0 && s.At(at', r)
      invariant AtPos(s.headers, at', PosAt(s.log, r, s.To())) && at' == at.(index := at'.index)
      invariant Fenced(s, fence, f, n, end) && s.low >= old(s.low)
      invariant s.Free() + 2040 * at'.index == old(s.Free()) + 2040 * at.index
      decreases at'.index
    {
      at' := ReleaseOne(s, at', r, fence, f, n, end);
    }
  }

  method ReleaseOne(s: Store, at: Tracker, ghost r: nat, ghost fence: nat, ghost f: nat, ghost n: nat,
                    ghost end: int) returns (at': Tracker)
    requires s.Valid() && s.To() >= 0 && s.At(at, r) && AtPos(s.headers, at, PosAt(s.log, r, s.To()))
    requires Fenced(s, fence, f, n, end) && at.page.value <= fence && at.index > 0
    modifies s`headers, s`data, s`index, s`low, s`firsts
    ensures s.Valid() && s.To() == old(s.To()) && s.At(at', r) && AtPos(s.headers, at', PosAt(s.log, r, s.To()))
    ensures at' == at.(index := at.index - 1) && Fenced(s, fence, f, n, end) && s.low >= old(s.low)
    ensures s.Free() == old(s.Free()) + 2040
  {
    PastFirst(s, at, r);
    at' := at.(index := at.index - 1);
    AtShift(s.headers, at, PosAt(s.log, r, s.To()));
    s.ReleaseFirstPage();
  }

  lemma PastFirst(s: Store, at: Tracker, r: nat)
    requires s.Valid() && s.To() >= 0 && s.At(at, r) && AtPos(s.headers, at, PosAt(s.log, r, s.To())) && at.index > 0
    ensures |s.firsts| == |s.headers| > 1 && s.firsts[1] <= r && s.headers[1].number == s.headers[0].number + 1
  {
    s.Parts();
    PageOfPlace(s.coder, s.headers, s.data, s.pageCount, s.offset, s.log, s.low, s.firsts, at, r, 1);
    StoreListed(s.coder, s.headers, s.data, s.pageCount, s.offset, s.log, s.low, s.firsts);
  }

  /** The same place, in the list of pages without the first. */
  lemma AtShift(headers: seq<PageHeader>, t: Tracker, p: nat)
    requires |headers| > 1 && headers[1].number == headers[0].number + 1 && AtPos(headers, t, p) && t.index > 0
    ensures AtPos(headers[1..], t.(index := t.index - 1), p)
  {
  }

  /** Gives up the pages that have been read: objects written since the last delimiter are closed by
      one, which is finalized when the pages are released. */
  method ReleasePassed(s: Store, at: Tracker, saved: bool, ghost was: seq<Item>, ghost low: nat, ghost r: nat,
                       ghost fence: nat, ghost f: nat, ghost n: nat, ghost end: int)
    returns (rc: Code, at': Tracker)
    requires s.Valid() && s.To() >= 0 && s.At(at, r) && AtPos(s.headers, at, PosAt(s.log, r, s.To()))
    requires Copied(s.log, was, low, r) && Fenced(s, fence, f, n, end) && at.page.value <= fence && at.index > 0
    modifies s`headers, s`data, s`index, s`offset, s`log, s`low, s`firsts
    ensures rc == Success || (rc == Reboot && old(s.Free()) <= CONTAINER_SIZE)
    ensures rc == Success ==> s.Free() >= old(s.Free())
    ensures rc == Success ==>
              && s.Valid() && s.To() >= 0 && s.At(at', r) && AtPos(s.headers, at', PosAt(s.log, r, s.To()))
              && at' == at.(index := 0) && Copied(s.log, was, low, r) && Fenced(s, fence, f, n, end)
              && (saved || old(EndsFinal(s)) ==> EndsFinal(s))
  {
    rc, at' := Success, at;
    if saved {
      ghost var log := s.log;
      rc, at' := CloseAndRelease(s, at, r, fence, f, n, end);
      if rc == Success {
        CopiedDelimiter(log, s.log, was, low, r);
      }
    } else {
      at' := ReleasePages(s, at, r, fence, f, n, end);
    }
  }

  method CloseAndRelease(s: Store, at: Tracker, ghost r: nat, ghost fence: nat, ghost f: nat, ghost n: nat,
                         ghost end: int)
    returns (rc: Code, at': Tracker)
    requires s.Valid() && s.To() >= 0 && s.At(at, r) && AtPos(s.headers, at, PosAt(s.log, r, s.To()))
    requires Fenced(s, fence, f, n, end) && at.page.value <= fence && at.index > 0
    modifies s`headers, s`data, s`index, s`offset, s`log, s`low, s`firsts
    ensures rc == Success || (rc == Reboot && old(s.Free()) <= CONTAINER_SIZE)
    ensures rc == Success ==> s.Free() >= old(s.Free())
    ensures rc == Success ==>
              && s.Valid() && s.To() >= 0 && s.At(at', r) && AtPos(s.headers, at', PosAt(s.log, r, s.To()))
              && at' == at.(index := 0) && Fenced(s, fence, f, n, end) && EndsFinal(s)
              && |s.log| == |old(s.log)| + 1 && s.log[..|old(s.log)|] == old(s.log) && !IsLive(s.log[|old(s.log)|])
  {
    at' := at;
    var page, del := s.headers[s.index].number, s.offset;
    ghost var log := s.log;
    rc := AddOpenDelimiter(s, at, r, fence, f, n, end);
    if rc != Success {
      return;
    }
    at' := ReleasePages(s, at, r, fence, f, n, end);
    Finalize(s, at', page, del, r, fence, f, n, end);
  }

  method AddOpenDelimiter(s: Store, at: Tracker, ghost r: nat, ghost fence: nat, ghost f: nat, ghost n: nat,
                          ghost end: int)
    returns (rc: Code)
    requires s.Valid() && s.To() >= 0 && s.At(at, r) && AtPos(s.headers, at, PosAt(s.log, r, s.To()))
    requires Fenced(s, fence, f, n, end)
    modifies s`headers, s`data, s`index, s`offset, s`log, s`firsts
    ensures rc == Success || (rc == Reboot && old(s.Free()) <= CONTAINER_SIZE)
    ensures rc == Success ==> s.Free() == old(s.Free()) - CONTAINER_SIZE
    ensures rc == Success ==>
              && s.Valid() && s.To() >= 0 && s.At(at, r) && AtPos(s.headers, at, PosAt(s.log, r, s.To()))
              && Fenced(s, fence, f, n, end) && s.IsPlace(old(s.headers[s.index].number), old(s.offset), |old(s.log)|)
              && |s.log| == |old(s.log)| + 1 && s.log[..|old(s.log)|] == old(s.log) && s.low <= |old(s.log)|
              && s.log[|old(s.log)|].copy == NN_OBJ_TRANSACTION_DEL
  {
    s.LowInLog();
    rc := s.AddDelimiter();
  }

  method Finalize(s: Store, at: Tracker, page: nat, del: nat, ghost r: nat, ghost fence: nat, ghost f: nat,
                  ghost n: nat,
                  ghost end: int)
    requires s.Valid() && s.To() >= 0 && s.At(at, r) && AtPos(s.headers, at, PosAt(s.log, r, s.To()))
    requires Fenced(s, fence, f, n, end) && |s.log| > 0 && s.IsPlace(page, del, |s.log| - 1) && s.low < |s.log|
    requires s.log[|s.log| - 1].copy == NN_OBJ_TRANSACTION_DEL
    modifies s`data, s`log
    ensures s.Valid() && s.To() >= 0 && s.At(at, r) && AtPos(s.headers, at, PosAt(s.log, r, s.To()))
    ensures Fenced(s, fence, f, n, end) && EndsFinal(s)
    ensures |s.log| == |old(s.log)| && s.log[..|s.log| - 1] == old(s.log)[..|s.log| - 1]
    ensures IsFinalized(s.log[|s.log| - 1])
  {
    s.Invalidate(page, del, |s.log| - 1);
  }

  /** A delimiter is not live. */
  lemma CopiedDelimiter(log: seq<Item>, log': seq<Item>, was: seq<Item>, low: nat, r: nat)
    requires Copied(log, was, low, r) && |log'| == |log| + 1 && log'[..|log|] == log && !IsLive(log'[|log|])
    ensures Copied(log', was, low, r)
  {
    assert log'[..|was|] == log'[..|log|][..|was|];
    forall k | |was| <= k < |log|
      ensures log[k] == log'[k]
    {
      assert log'[..|log|][k] == log[k];
    }
    LivePrefix(log, log', |was|, |log|);
  }

  /** A tracker that has not passed the items that were there is not past the fence page, and is on it
      exactly when it has passed those that start before it. */
  lemma AtFence(s: Store, at: Tracker, r: nat, fence: nat, f: nat, n: nat, end: int)
    requires s.Valid() && s.To() >= 0 && s.At(at, r) && AtPos(s.headers, at, PosAt(s.log, r, s.To()))
    requires Fenced(s, fence, f, n, end) && r <= n
    ensures at.page.value <= fence && (at.page.value == fence <==> f <= r)
    ensures s.low <= f <= |s.log|
  {
    var k := fence - s.headers[0].number;
    s.Parts();
    PageOfPlace(s.coder, s.headers, s.data, s.pageCount, s.offset, s.log, s.low, s.firsts, at, r, k);
    ChainedOrder(s.log, s.low, PageStart(s.headers[0]), s.To(), r, n);
  }

  /** Compaction has got to item r; free bytes were there at its start. */
  ghost predicate Running(s: Store, at: Tracker, was: seq<Item>, low: nat, r: nat, fence: nat, f: nat, end: int,
                          free: int)
    reads s
  {
    && s.Valid() && s.To() >= 0 && s.At(at, r) && Copied(s.log, was, low, r) && Fenced(s, fence, f, |was|, end)
    && s.Free() + LiveBytes(was, low, r) >= free
    && (r < |was| ==> Visible(was[|was| - 1], false))
  }

  /** The live objects and a delimiter take more than some bytes. */
  ghost predicate TooLarge(was: seq<Item>, low: nat, free: int) {
    LiveBytes(was, low, |was|) + CONTAINER_SIZE >= free
  }

  /** What the next object takes, and that it takes no more than all of them. */
  lemma ReadFits(was: seq<Item>, low: nat, r: nat)
    requires low <= r <= |was|
    ensures var j := NextVisible(was, r, false);
            j < |was| ==>
              LiveBytes(was, low, j + 1) == LiveBytes(was, low, r) + LiveSize(was[j]) <= LiveBytes(was, low, |was|)
  {
    if NextVisible(was, r, false) < |was| {
      BytesRead(was, low, r);
      LiveBytesGrow(was, low, NextVisible(was, r, false) + 1, |was|);
    }
  }

  /** The first half of a round of the loop of compact_nvmem: an object is read, and written again. */
  method CopyRound(s: Store, at: Tracker, count: nat, ghost was: seq<Item>, ghost low: nat, ghost r: nat,
                   ghost fence: nat, ghost f: nat, ghost end: int, ghost free: int)
    returns (rc: Code, at': Tracker, count': nat, ghost r': nat)
    requires Running(s, at, was, low, r, fence, f, end, free) && (r == |was| ==> s.log == was)
    requires (count == 0 ==> EndsFinal(s))
    modifies s`headers, s`data, s`index, s`offset, s`log, s`firsts
    ensures rc == Success || rc == EndOfLog || (rc == Reboot && TooLarge(was, low, free))
    ensures rc == EndOfLog <==> r == |was|
    ensures rc == EndOfLog ==> s.Valid() && s.log == old(s.log) && s.Free() == old(s.Free())
    ensures rc == Success ==>
              && Running(s, at', was, low, r', fence, f, end, free) && r' == NextVisible(was, r, false) + 1
              && AtPos(s.headers, at', PosAt(s.log, r', s.To())) && (count' == 0 ==> EndsFinal(s))
  {
    count' := count;
    var saved;
    ReadFits(was, low, r);
    rc, at', saved, r' := CopyNext(s, at, was, low, r, fence, f, |was|, end);
    if rc != Success {
      return;
    }
    if saved {
      count' := count' + 1;
    }
  }

  /** One round of the loop of compact_nvmem. */
  method Round(s: Store, at: Tracker, count: nat, ghost was: seq<Item>, ghost low: nat, ghost r: nat,
               ghost fence: nat, ghost f: nat, ghost end: int, ghost free: int)
    returns (rc: Code, at': Tracker, count': nat, finalNeeded: bool, ghost r': nat)
    requires Running(s, at, was, low, r, fence, f, end, free) && (r == |was| ==> s.log == was)
    requires (count == 0 ==> EndsFinal(s))
    modifies s`headers, s`data, s`index, s`offset, s`log, s`low, s`firsts
    ensures rc == Success || rc == EndOfLog || (rc == Reboot && TooLarge(was, low, free))
    ensures rc == EndOfLog <==> r == |was|
    ensures rc == EndOfLog ==> s.Valid() && s.log == old(s.log) && s.low == old(s.low) && s.Free() == old(s.Free())
    ensures rc == Success ==>
              && Running(s, at', was, low, r', fence, f, end, free) && r' == NextVisible(was, r, false) + 1
              && at'.page == Some(s.headers[0].number) && s.headers[0].number <= fence
              && (at'.page == Some(fence) <==> f <= r')
              && (count' == 0 ==> EndsFinal(s)) && (!finalNeeded ==> EndsFinal(s))
  {
    finalNeeded := true;
    rc, at', count', r' := CopyRound(s, at, count, was, low, r, fence, f, end, free);
    if rc == Success {
      AtFence(s, at', r', fence, f, |was|, end);
      rc, at', count', finalNeeded := ReleaseRound(s, at', count', was, low, r', fence, f, end, free);
    }
  }

  /** The second half: pages the reader has left are released. */
  method ReleaseRound(s: Store, at: Tracker, count: nat, ghost was: seq<Item>, ghost low: nat, ghost r: nat,
                      ghost fence: nat, ghost f: nat, ghost end: int, ghost free: int)
    returns (rc: Code, at': Tracker, count': nat, finalNeeded: bool)
    requires Running(s, at, was, low, r, fence, f, end, free) && (count == 0 ==> EndsFinal(s))
    requires AtPos(s.headers, at, PosAt(s.log, r, s.To())) && at.page.value <= fence
    modifies s`headers, s`data, s`index, s`offset, s`log, s`low, s`firsts
    ensures rc == Success || (rc == Reboot && TooLarge(was, low, free))
    ensures rc == Success ==>
              && Running(s, at', was, low, r, fence, f, end, free) && at'.page == at.page == Some(s.headers[0].number)
              && (count' == 0 ==> EndsFinal(s)) && (!finalNeeded ==> EndsFinal(s))
  {
    rc, at', count', finalNeeded := Success, at, count, true;
    LiveBytesGrow(was, low, r, |was|);
    if at.index != 0 {
      rc, at' := ReleasePassed(s, at, count > 0, was, low, r, fence, f, |was|, end);
      count', finalNeeded := 0, false;
    }
  }

  /** Where the reader is when it reaches the page that starts with item f: behind the last container
      that starts before the page, unless that one is deleted.  Then a further object has been read. */
  ghost function StopAt(log: seq<Item>, low: nat, f: nat): nat
    requires f <= |log|
  {
    if low < f && Visible(log[f - 1], false) then f else NextVisible(log, f, false) + 1
  }

  lemma StopsAt(log: seq<Item>, low: nat, f: nat, r: nat)
    requires low <= r && low <= f <= |log| && (r < f || r == low) && r <= |log| && f <= NextVisible(log, r, false) + 1
    ensures NextVisible(log, r, false) + 1 == StopAt(log, low, f)
  {
    if r < f && !Visible(log[f - 1], false) {
      StepOver(log, r, f);
    }
  }

  lemma StepOver(log: seq<Item>, r: nat, f: nat)
    requires r <= f <= |log| && forall k :: r <= k < f ==> !Visible(log[k], false)
    ensures NextVisible(log, r, false) == NextVisible(log, f, false)
    decreases f - r
  {
    if r < f {
      StepOver(log, r + 1, f);
    }
  }

  /** On an empty page, all containers start before it. */
  lemma FreshFence(s: Store)
    requires s.Valid() && s.offset == PAGE_HEADER_SIZE
    ensures |s.firsts| == |s.headers| > 0 && s.firsts[|s.firsts| - 1] == |s.log|
  {
    var k := |s.headers| - 1;
    s.Parts();
    assert PageOk(s.headers, s.firsts, s.log, s.low, s.To(), k);
    ChainedItem(s.log, s.low, PageStart(s.headers[0]), s.To(), s.firsts[k]);
  }

  lemma LastFirst(s: Store)
    requires s.Valid()
    ensures |s.firsts| == |s.headers| > 0 && s.low <= s.firsts[|s.firsts| - 1] <= |s.log|
    ensures s.firsts[0] == s.low && s.To() < 2040 * (s.headers[|s.headers| - 1].number + 1)
    ensures s.headers[|s.headers| - 1].number == s.headers[0].number + |s.headers| - 1
  {
    s.Parts();
    assert PageOk(s.headers, s.firsts, s.log, s.low, s.To(), |s.headers| - 1);
  }

  /** The live objects after compaction: those of the last page, and those written again. */
  lemma LiveAfter(log: seq<Item>, was: seq<Item>, low: nat, f: nat, r: nat)
    requires Copied(log, was, low, r) && f <= |was|
    ensures Live(log, f, |log|) == Live(was, f, |was|) + Live(was, low, r)
  {
    LiveSplit(log, f, |was|, |log|);
    LivePrefix(log, was, f, |was|);
  }

  /** Filling up a page adds nothing live. */
  lemma LiveFilled(log: seq<Item>, was: seq<Item>, low: nat)
    requires low <= |log| <= |was| && was[..|log|] == log && forall k :: |log| <= k < |was| ==> !IsLive(was[k])
    ensures Live(was, low, |was|) == Live(log, low, |log|)
  {
    LiveSplit(was, low, |log|, |was|);
    NoneLive(was, |log|, |was|);
    LivePrefix(was, log, low, |log|);
  }

  /** The rest of compact_nvmem, once the page where it stops is known. */
  method CompactTo(s: Store, ghost f: nat, ghost was: seq<Item>, ghost free: int) returns (rc: Code)
    requires s.Valid() && EndsFinal(s) && was == s.log && |s.firsts| == |s.headers| && f == s.firsts[|s.firsts| - 1]
    requires free == s.Free()
    modifies s`headers, s`data, s`index, s`offset, s`log, s`low, s`firsts
    ensures rc == Success || (rc == Reboot && TooLarge(was, old(s.low), free))
    ensures rc == Success ==> s.Valid() && EndsFinal(s) && s.low <= |s.log|
    ensures rc == Success && old(s.low) == |was| ==> s.log == was && s.low == old(s.low) && s.Free() == free
    ensures rc == Success && old(s.low) < |was| ==>
              && f <= |was| && StopAt(was, old(s.low), f) <= |was| && s.low == f
              && Copied(s.log, was, old(s.low), StopAt(was, old(s.low), f))
              && s.headers[0].number == old(s.headers[|s.headers| - 1].number)
              && s.Free() + LiveBytes(was, old(s.low), |was|) + CONTAINER_SIZE >= free
  {
    ghost var low, r := s.low, s.low;
    rc := Success;
    s.LowInLog();
    LastFirst(s);
    ghost var end := s.To();
    var fence := s.headers[s.index].number;
    var at, count, finalNeeded, more := EMPTY_TRACKER, 0, true, true;
    while more
      invariant rc == Success && Running(s, at, was, low, r, fence, f, end, free)
      invariant (count == 0 ==> EndsFinal(s)) && (!finalNeeded ==> EndsFinal(s))
      invariant more ==> (r == low && s.log == was && s.low == low && s.Free() == free) || r < f
      invariant !more ==> r == StopAt(was, low, f) && s.headers[0].number == fence
      invariant low <= f <= |was|
      decreases |was| - r, more
    {
      ghost var before := r;
      rc, at, count, finalNeeded, r := Round(s, at, count, was, low, r, fence, f, end, free);
      if rc == EndOfLog {
        return Success;
      }
      if rc != Success {
        return;
      }
      more := at.page != Some(fence);
      if !more {
        StopsAt(was, low, f, before);
      }
    }
    LastFirst(s);
    rc := Close(s, finalNeeded, was, low, r, free);
  }

  /** A last delimiter, if one is needed. */
  method Close(s: Store, finalNeeded: bool, ghost was: seq<Item>, ghost low: nat, ghost r: nat, ghost free: int)
    returns (rc: Code)
    requires s.Valid() && Copied(s.log, was, low, r) && (!finalNeeded ==> EndsFinal(s))
    requires s.Free() + LiveBytes(was, low, r) >= free
    modifies s`headers, s`data, s`index, s`offset, s`log, s`firsts
    ensures rc == Success || (rc == Reboot && TooLarge(was, low, free))
    ensures rc == Success ==>
              && s.Valid() && EndsFinal(s) && s.low <= |s.log| && Copied(s.log, was, low, r)
              && old(s.headers) <= s.headers
              && s.Free() + LiveBytes(was, low, |was|) + CONTAINER_SIZE >= free
  {
    rc := Success;
    s.LowInLog();
    LiveBytesGrow(was, low, r, |was|);
    if finalNeeded {
      ghost var log := s.log;
      rc := s.AddFinalDelimiter();
      if rc == Success {
        CopiedDelimiter(log, s.log, was, low, r);
      }
    }
  }

  // ----- what compaction leaves

  /** The first item that starts on the last page. */
  ghost function LastStart(s: Store): (f: nat)
    requires s.Valid()
    reads s
    ensures s.low <= f <= |s.log|
  {
    LastFirst(s);
    s.firsts[|s.firsts| - 1]
  }

  /** The live objects after compaction: when it starts on an empty page, those that were there.  Otherwise
      those of the last page, and then those up to StopAt. */
  ghost function LiveCompacted(s: Store): seq<Obj>
    requires s.Valid() && EndsFinal(s)
    reads s
  {
    if FreshPage(s) || s.low == |s.log| then LiveObjs(s)
    else StopWithin(s.log, s.low, LastStart(s)); CompactedLog(s.log, s.low, LastStart(s))
  }

  ghost function CompactedLog(log: seq<Item>, low: nat, f: nat): seq<Obj>
    requires f <= |log| && StopAt(log, low, f) <= |log|
  {
    Live(log, f, |log|) + Live(log, low, StopAt(log, low, f))
  }

  lemma StopWithin(log: seq<Item>, low: nat, f: nat)
    requires low <= f <= |log| && low < |log| && IsFinalized(log[|log| - 1])
    ensures StopAt(log, low, f) <= |log|
  {
    if f < |log| {
      assert Visible(log[|log| - 1], false);
    }
  }

  /** Compaction writes each live object once: it starts on an empty page, or the last container before
      the last page is visible, or the next one that is read is not live. */
  ghost predicate WritesOnce(s: Store)
    requires s.Valid()
    reads s
  {
    var f := LastStart(s);
    || FreshPage(s) || s.low == |s.log|
    || (s.low < f && Visible(s.log[f - 1], false))
    || (NextVisible(s.log, f, false) < |s.log| && !IsLive(s.log[NextVisible(s.log, f, false)]))
  }

  /** Compaction loses nothing and duplicates nothing if and only if it writes each object once. */
  lemma PreservedIff(s: Store)
    requires s.Valid() && EndsFinal(s)
    ensures multiset(LiveCompacted(s)) == multiset(LiveObjs(s)) <==> WritesOnce(s)
  {
    if !FreshPage(s) && s.low != |s.log| {
      var f := LastStart(s);
      StopWithin(s.log, s.low, f);
      assert LiveCompacted(s) == CompactedLog(s.log, s.low, f);
      SameIff(s.log, s.low, f);
      if !(s.low < f && Visible(s.log[f - 1], false)) {
        StopsInside(s.log, s.low, f);
      }
    } else {
      assert LiveCompacted(s) == LiveObjs(s);
    }
  }

  lemma StopsInside(log: seq<Item>, low: nat, f: nat)
    requires low <= f <= |log| && StopAt(log, low, f) <= |log| && !(low < f && Visible(log[f - 1], false))
    ensures NextVisible(log, f, false) < |log|
  {
  }

  lemma SameIff(log: seq<Item>, low: nat, f: nat)
    requires low <= f <= |log| && StopAt(log, low, f) <= |log|
    ensures multiset(CompactedLog(log, low, f)) == multiset(Live(log, low, |log|))
       <==> (low < f && Visible(log[f - 1], false)) || !IsLive(log[NextVisible(log, f, false)])
  {
    var t := StopAt(log, low, f);
    LiveSplit(log, low, f, |log|);
    LiveSplit(log, low, f, t);
    BothWays(Live(log, low, f), Live(log, f, |log|), Live(log, f, t));
    BeforeStop(log, low, f);
  }

  /** What is written twice: nothing, or the first object on the last page. */
  lemma BeforeStop(log: seq<Item>, low: nat, f: nat)
    requires low <= f <= |log| && StopAt(log, low, f) <= |log|
    ensures f <= StopAt(log, low, f)
    ensures Live(log, f, StopAt(log, low, f)) == []
       <==> (low < f && Visible(log[f - 1], false)) || !IsLive(log[NextVisible(log, f, false)])
  {
    if !(low < f && Visible(log[f - 1], false)) {
      SteppedOver(log, f);
      assert Live(log, f, NextVisible(log, f, false)) == [];
    }
  }

  lemma BothWays(a: seq<Obj>, b: seq<Obj>, c: seq<Obj>)
    ensures multiset(b + (a + c)) == multiset(a + b) <==> c == []
  {
    if c == [] {
      assert a + c == a;
    } else {
      assert |multiset(b + (a + c))| == |b + (a + c)|;
      assert |multiset(a + b)| == |a + b|;
    }
  }

  /** compact_nvmem.  It fails only when there is no room for the live objects and a delimiter. */
  method Compact(s: Store, scratch: seq<uint8>) returns (rc: Code)
    requires s.Valid() && EndsFinal(s) && |scratch| == CONFIG_FLASH_BANK_SIZE
    modifies s`headers, s`data, s`index, s`offset, s`log, s`low, s`firsts
    ensures rc == Success || (rc == Reboot && TooLarge(old(s.log), old(s.low), old(Available(s))))
    ensures rc == Success ==> s.Valid() && EndsFinal(s) && s.low <= |s.log| && LiveObjs(s) == old(LiveCompacted(s))
    ensures rc == Success ==>
              s.Free() + LiveBytes(old(s.log), old(s.low), |old(s.log)|) + CONTAINER_SIZE >= old(Available(s))
    ensures rc == Success && old(s.low) < |old(s.log)| ==> s.headers[0].number >= old(s.headers[|s.headers| - 1].number)
  {
    ghost var low, log, was, f, free := s.low, s.log, [], 0, 0;
    rc, was, f, free := Prepare(s, scratch);
    ghost var onEmpty := s.offset == PAGE_HEADER_SIZE;
    rc := CompactTo(s, f, was, free);
    if rc == Success && low < |was| {
      LiveAfter(s.log, was, low, f, StopAt(was, low, f));
      if onEmpty {
        FreshStop(was, low, f);
      }
    }
  }

  /** On a fresh page, compaction stops at the end of the items before it. */
  lemma FreshStop(was: seq<Item>, low: nat, f: nat)
    requires low < f == |was| && IsFinalized(was[f - 1])
    ensures StopAt(was, low, f) == f && Live(was, f, f) == []
  {
  }

  method Prepare(s: Store, scratch: seq<uint8>) returns (rc: Code, ghost was: seq<Item>, ghost f: nat, ghost free: int)
    requires s.Valid() && EndsFinal(s) && |scratch| == CONFIG_FLASH_BANK_SIZE
    modifies s`headers, s`data, s`index, s`offset, s`log, s`firsts
    ensures rc == Success && s.Valid() && EndsFinal(s) && was == s.log && s.low <= |old(s.log)| <= |was|
    ensures |s.firsts| == |s.headers| && f == s.firsts[|s.firsts| - 1] && s.low <= f <= |was|
    ensures Live(was, s.low, |was|) == Live(old(s.log), s.low, |old(s.log)|)
    ensures LiveBytes(was, s.low, |was|) == LiveBytes(old(s.log), s.low, |old(s.log)|)
    ensures if old(FreshPage(s)) then s.offset == PAGE_HEADER_SIZE && f == |was|
            else s.offset != PAGE_HEADER_SIZE && was == old(s.log) && f == old(LastStart(s))
    ensures s.headers[|s.headers| - 1].number >= old(s.headers[|s.headers| - 1].number)
    ensures free == s.Free() == old(Available(s))
  {
    ghost var low, log := s.low, s.log;
    s.LowInLog();
    LastFirst(s);
    rc := FillPage(s, scratch);
    LastFirst(s);
    was, f, free := s.log, s.firsts[|s.firsts| - 1], s.Free();
    LiveFilled(log, was, low);
    LiveBytesAre(was, low, |was|);
    LiveBytesAre(log, low, |log|);
    if s.offset == PAGE_HEADER_SIZE {
      FreshFence(s);
    }
  }
}
