/** The persistent event log: one flash page of entries, appended, compacted and read in order. */
module FlashLog {
  import opened Common
  import opened Flash
  import opened FlashLogEntries

  datatype Code = Success | Invalid

  datatype Found = Later | End | Bad

  /** memcpy to a buffer. */
  method CopyOut(buf: array<uint8>, used: nat, data: seq<uint8>)
    requires used + |data| <= buf.Length
    modifies buf
    ensures buf[..used + |data|] == old(buf[..used]) + data
  {
    forall i | 0 <= i < |data| {
      buf[used + i] := data[i];
    }
  }

  /** Entries from f up to k - 1 have been copied, or none yet and f is k. */
  ghost predicate Copying(es: seq<seq<uint8>>, cursor: nat, f: nat, k: nat, bytes: seq<uint8>) {
    && f <= k <= |es| && cursor == |Concat(es[..k])| && bytes == Concat(es[f..k])
    && (f < k ==> |Concat(es[f..])| <= COMPACTION_SPACE_PRESERVE)
    && (forall j {:trigger TooLong(es, j)} :: 0 <= j < f ==> TooLong(es, j))
  }

  /** Whether there is an entry at an offset, and the space it takes. */
  method EntryAt(crc8: Crc8, log: seq<uint8>, offset: nat, ghost es: seq<seq<uint8>>, ghost k: nat)
    returns (valid: bool, space: nat)
    requires AllWellFormed(crc8, es) && Concat(es) <= log && k <= |es| && offset == |Concat(es[..k])| < |Concat(es)|
    ensures valid && k < |es| && space == |es[k]| > 0 && offset + space <= |log| && log[offset..offset + space] == es[k]
    ensures |Concat(es[..k + 1])| == offset + space && |Concat(es)| - offset == |Concat(es[k..])|
  {
    assert es[..|es|] == es;
    EntryFound(crc8, log, es, k);
    ConcatAt(es, k);
    valid := EntryIsValid(crc8, log, offset);
    space := EntrySize(log[offset + 4]);
  }

  /** Passes an entry, and copies it if what is left of the log from there on is to be kept. */
  method PassEntry(crc8: Crc8, log: seq<uint8>, writeCursor: nat, buf: array<uint8>, cursor: nat, used: nat,
                   ghost es: seq<seq<uint8>>, ghost f: nat, ghost k: nat)
    returns (valid: bool, cursor': nat, used': nat, ghost f': nat)
    requires AllWellFormed(crc8, es) && Concat(es) <= log && cursor < writeCursor == |Concat(es)|
    requires used <= buf.Length == COMPACTION_SPACE_PRESERVE && Copying(es, cursor, f, k, buf[..used])
    modifies buf
    ensures valid && k < |es| && used' <= buf.Length && Copying(es, cursor', f', k + 1, buf[..used'])
  {
    var space;
    valid, space := EntryAt(crc8, log, cursor, es, k);
    cursor', used', f' := cursor, used, f;
    if !valid {
      return;
    }
    ConcatRange(es, f, k);
    if writeCursor - cursor <= COMPACTION_SPACE_PRESERVE {
      assert |Concat(es[f..k + 1])| <= |Concat(es[f..])| <= COMPACTION_SPACE_PRESERVE by {
        ConcatAt(es, k);
      }
      CopyOut(buf, used, log[cursor..cursor + space]);
      used' := used + space;
    } else {
      f' := k + 1;
      assert TooLong(es, k);
      assert es[f'..f'] == [];
    }
    cursor' := cursor + space;
  }

  /** The copying loop of try_compacting, over the log as it is mapped. */
  method CopyKept(crc8: Crc8, log: seq<uint8>, writeCursor: nat, buf: array<uint8>, ghost es: seq<seq<uint8>>)
    returns (used: nat, ghost f: nat)
    requires AllWellFormed(crc8, es) && Concat(es) <= log && writeCursor == |Concat(es)|
    requires buf.Length == COMPACTION_SPACE_PRESERVE
    modifies buf
    ensures used <= buf.Length && LongestFit(es, f) && buf[..used] == Concat(es[f..])
  {
    var cursor: nat := 0;
    ghost var k := 0;
    used, f := 0, 0;
    assert es[..0] == [] && es[0..0] == [];
    while cursor < writeCursor
      invariant used <= buf.Length && Copying(es, cursor, f, k, buf[..used])
      decreases |es| - k
    {
      var valid;
      valid, cursor, used, f := PassEntry(crc8, log, writeCursor, buf, cursor, used, es, f, k);
      if !valid {
        break;
      }
      k := k + 1;
    }
    AllPassed(crc8, es, k);
    assert es[f..k] == es[f..];
  }

  /** At the write cursor, all entries have been passed. */
  lemma AllPassed(crc8: Crc8, es: seq<seq<uint8>>, k: nat)
    requires AllWellFormed(crc8, es) && k <= |es| && |Concat(es[..k])| >= |Concat(es)|
    ensures k == |es|
  {
    if k < |es| {
      assert WellFormed(crc8, es[k]);
      ConcatAt(es, k);
    }
  }

  class Log {
    const crc8: Crc8
    const flash: array<uint8>
    var writeCursor: nat
    var readCursor: nat
    var prevTimestamp: nat
    var tstampBase: nat
    var lastUsed: nat
    var lockFailures: nat
    var overflowFailures: nat

    ghost var entries: seq<seq<uint8>>
    ghost var readIndex: nat

    /** The flash starts with the entries, up to the write cursor. */
    ghost predicate Chained()
      reads this, flash
    {
      && flash.Length == FLASH_LOG_SPACE && ErasedIsInvalid(crc8) && AllWellFormed(crc8, entries)
      && Concat(entries) <= flash[..] && writeCursor == |Concat(entries)|
      && readIndex <= |entries| && readCursor == |Concat(entries[..readIndex])|
      && prevTimestamp < UINT32 && tstampBase < UINT32 && lastUsed < UINT32
      && lockFailures < UINT32 && overflowFailures < UINT32
    }

    /** And the rest is erased. */
    ghost predicate Valid()
      reads this, flash
    {
      Chained() && flash[writeCursor..] == Erased(FLASH_LOG_SPACE - writeCursor)
    }

    /** All entries in order, and the last timestamp used no earlier than any. */
    ghost predicate InOrder()
      reads this
    {
      Ordered(entries, lastUsed)
    }

    /** Whatever the flash contains when the device starts. */
    constructor (crc8: Crc8, flash: array<uint8>)
      requires flash.Length == FLASH_LOG_SPACE && ErasedIsInvalid(crc8)
      ensures this.crc8 == crc8 && this.flash == flash
      ensures Chained() && entries == [] && lastUsed == prevTimestamp == tstampBase == 0
      ensures lockFailures == overflowFailures == 0
    {
      this.crc8, this.flash := crc8, flash;
      writeCursor, readCursor, prevTimestamp, tstampBase, lastUsed := 0, 0, 0, 0, 0;
      lockFailures, overflowFailures := 0, 0;
      entries, readIndex := [], 0;
    }

    /** Writes bytes to flash. */
    method FlashWrite(offset: nat, data: seq<uint8>)
      requires offset + |data| <= flash.Length
      modifies flash
      ensures flash[..] == old(flash[..offset]) + data + old(flash[offset + |data|..])
    {
      forall i | 0 <= i < |data| {
        flash[offset + i] := data[i];
      }
    }

    method FlashErase()
      modifies flash
      ensures flash[..] == Erased(flash.Length)
    {
      forall i | 0 <= i < flash.Length {
        flash[i] := ERASED;
      }
    }

    /** try_compacting.  memory says whether a buffer could be allocated. */
    method TryCompacting(memory: bool)
      requires Chained()
      modifies this`writeCursor, this`readCursor, this`prevTimestamp, this`entries, this`readIndex, flash
      ensures memory ==>
                && Valid() && writeCursor <= COMPACTION_SPACE_PRESERVE && readIndex == 0 && prevTimestamp == 0
                && |entries| <= |old(entries)| && LongestFit(old(entries), |old(entries)| - |entries|)
                && entries == old(entries)[|old(entries)| - |entries|..]
      ensures !memory ==>
                && flash[..] == old(flash[..]) && entries == old(entries) && writeCursor == old(writeCursor)
                && readCursor == old(readCursor) && readIndex == old(readIndex) && prevTimestamp == old(prevTimestamp)
    {
      if !memory {
        return;
      }
      var buf := new uint8[COMPACTION_SPACE_PRESERVE];
      var used, f := CopyKept(crc8, flash[..], writeCursor, buf, entries);
      WellFormedSuffix(crc8, entries, f);
      Rewrite(buf, used, entries[f..]);
    }

    /** Leaves nothing in flash but the entries in a buffer. */
    method Rewrite(buf: array<uint8>, used: nat, ghost kept: seq<seq<uint8>>)
      requires Chained() && used <= buf.Length == COMPACTION_SPACE_PRESERVE && buf != flash
      requires AllWellFormed(crc8, kept) && Concat(kept) == buf[..used]
      modifies this`writeCursor, this`readCursor, this`prevTimestamp, this`entries, this`readIndex, flash
      ensures Valid() && entries == kept && writeCursor == used && readIndex == 0 && prevTimestamp == 0
    {
      FlashErase();
      FlashWrite(0, buf[..used]);
      assert Erased(FLASH_LOG_SPACE)[used..] == Erased(FLASH_LOG_SPACE - used);
      writeCursor := used;
      readCursor, prevTimestamp := 0, 0;
      entries, readIndex := kept, 0;
      assert entries[..0] == [];
    }

    // ----- adding events

    /** flash_log_get_tstamp */
    function GetTstamp(uptime: nat): (t: nat)
      reads this
      ensures t < UINT32
    {
      (tstampBase + uptime) % UINT32
    }

    /** flash_log_set_tstamp: the clock moves to a time after the last entry's, or stays. */
    method SetTstamp(tstamp: nat, uptime: nat) returns (code: Code)
      requires tstamp < UINT32
      modifies this`tstampBase
      ensures code == if tstamp <= lastUsed then Invalid else Success
      ensures code == Success ==> tstampBase < UINT32 && GetTstamp(uptime) == tstamp
      ensures code == Invalid ==> tstampBase == old(tstampBase)
    {
      if tstamp <= lastUsed {
        return Invalid;
      }
      tstampBase := (tstamp - uptime) % UINT32;
      return Success;
    }

    /** Writes an entry at the write cursor. */
    method Append(e: seq<uint8>)
      requires Valid() && WellFormed(crc8, e) && writeCursor + |e| <= FLASH_LOG_SPACE
      modifies this`writeCursor, this`entries, flash
      ensures Valid() && entries == old(entries) + [e]
    {
      ConcatAppend(entries, [e]);
      ConcatOne(e);
      ghost var page := flash[..];
      FlashWrite(writeCursor, e);
      Appended(page, flash[..], Concat(entries), e);
      writeCursor := writeCursor + |e|;
      entries := entries + [e];
      assert entries[..readIndex] == old(entries)[..readIndex];
    }

    lemma Appended(page: seq<uint8>, page': seq<uint8>, bytes: seq<uint8>, e: seq<uint8>)
      requires |page| == FLASH_LOG_SPACE && bytes <= page && page[|bytes|..] == Erased(FLASH_LOG_SPACE - |bytes|)
      requires |bytes| + |e| <= |page| && page' == page[..|bytes|] + e + page[|bytes| + |e|..]
      ensures bytes + e <= page' && page'[|bytes| + |e|..] == Erased(FLASH_LOG_SPACE - |bytes| - |e|)
    {
      var n := |bytes| + |e|;
      assert page'[n..] == page[|bytes|..][|e|..];
    }

    /** The place of a reader is kept, or it starts over. */
    twostate predicate ReaderKept()
      reads this
    {
      || (readIndex == old(readIndex) && prevTimestamp == old(prevTimestamp) && readIndex <= |old(entries)| <= |entries|
          && entries[..readIndex] == old(entries)[..readIndex])
      || (readIndex == 0 && prevTimestamp == 0)
    }

    /** Compacts a log that is nearly full. */
    method MakeRoom(memory: bool)
      requires Valid()
      modifies this`writeCursor, this`readCursor, this`prevTimestamp, this`entries, this`readIndex, flash
      ensures Valid() && ReaderKept() && (old(InOrder()) ==> InOrder())
      ensures Base(old(entries), old(writeCursor) > RUN_TIME_LOG_FULL_WATERMARK && memory, entries)
    {
      ghost var es, compacted := entries, writeCursor > RUN_TIME_LOG_FULL_WATERMARK && memory;
      if writeCursor > RUN_TIME_LOG_FULL_WATERMARK {
        TryCompacting(memory);
      }
      if old(InOrder()) {
        BaseInOrder(es, compacted, entries, lastUsed);
      }
    }

    /** Adds an entry with the next timestamp. */
    method AddEntry(kind: uint8, payload: seq<uint8>, uptime: nat) returns (ghost e: seq<uint8>)
      requires Valid() && |payload| <= MAX_FLASH_LOG_PAYLOAD_SIZE
      requires writeCursor + EntrySize(|payload| as uint8) <= FLASH_LOG_SPACE
      modifies this`writeCursor, this`lastUsed, this`entries, flash
      ensures Valid() && ReaderKept()
      ensures lastUsed == NextStamp(old(lastUsed), GetTstamp(uptime))
      ensures IsEntry(crc8, e, lastUsed, kind, payload) && entries == old(entries) + [e]
    {
      lastUsed := NextStamp(lastUsed, GetTstamp(uptime));
      var entry := MakeEntry(crc8, lastUsed, kind, payload);
      Append(entry);
      e := entry;
    }

    /** The order is kept as long as there is a timestamp after the last. */
    method AddEntryInOrder(kind: uint8, payload: seq<uint8>, uptime: nat) returns (ghost e: seq<uint8>)
      requires Valid() && |payload| <= MAX_FLASH_LOG_PAYLOAD_SIZE
      requires writeCursor + EntrySize(|payload| as uint8) <= FLASH_LOG_SPACE
      modifies this`writeCursor, this`lastUsed, this`entries, flash
      ensures Valid() && ReaderKept()
      ensures lastUsed == NextStamp(old(lastUsed), GetTstamp(uptime))
      ensures IsEntry(crc8, e, lastUsed, kind, payload) && entries == old(entries) + [e]
      ensures old(InOrder()) && old(lastUsed) != ERASED_VALUE32 ==> InOrder()
    {
      assert lastUsed < UINT32;
      e := AddEntry(kind, payload, uptime);
      NextInOrder(crc8, old(entries), old(lastUsed), lastUsed, e, kind, payload);
    }

    /** The part of flash_log_add_event_core under the lock.  base is the log the entry is added to. */
    method AddLocked(kind: uint8, payload: seq<uint8>, uptime: nat, memory: bool)
      returns (code: Code, ghost base: seq<seq<uint8>>, ghost e: seq<uint8>)
      requires Valid() && |payload| <= MAX_FLASH_LOG_PAYLOAD_SIZE
      modifies this`writeCursor, this`readCursor, this`prevTimestamp, this`entries, this`readIndex, this`lastUsed,
               this`overflowFailures, flash
      ensures Valid() && ReaderKept()
      ensures Base(old(entries), old(writeCursor) > RUN_TIME_LOG_FULL_WATERMARK && memory, base)
      ensures code == Success <==> |Concat(base)| + EntrySize(|payload| as uint8) <= FLASH_LOG_SPACE
      ensures code == Success ==>
                && lastUsed == NextStamp(old(lastUsed), GetTstamp(uptime)) && overflowFailures == old(overflowFailures)
                && IsEntry(crc8, e, lastUsed, kind, payload) && entries == base + [e]
      ensures code == Invalid ==>
                && entries == base && lastUsed == old(lastUsed)
                && overflowFailures == (old(overflowFailures) + 1) % UINT32
      ensures old(InOrder()) && old(lastUsed) != ERASED_VALUE32 ==> InOrder()
    {
      e := [];
      var padded := EntrySize(|payload| as uint8);
      MakeRoom(memory);
      base := entries;
      if padded > FLASH_LOG_SPACE - writeCursor {
        overflowFailures := (overflowFailures + 1) % UINT32;
        code := Invalid;
      } else {
        e := AddEntryInOrder(kind, payload, uptime);
        code := Success;
      }
    }

    /** flash_log_add_event_core */
    method AddEventCore(kind: uint8, payload: seq<uint8>, uptime: nat, memory: bool, busy: bool)
      returns (code: Code, ghost base: seq<seq<uint8>>, ghost e: seq<uint8>)
      requires Valid()
      modifies this`writeCursor, this`readCursor, this`prevTimestamp, this`entries, this`readIndex, this`lastUsed,
               this`lockFailures, this`overflowFailures, flash
      ensures Valid()
      ensures ReadersKept(old(entries), old(readIndex), old(prevTimestamp), entries, readIndex, prevTimestamp)
      ensures old(readIndex) == old(prevTimestamp) == 0 ==> readIndex == prevTimestamp == 0
      ensures Base(old(entries), old(writeCursor) > RUN_TIME_LOG_FULL_WATERMARK && memory
                                 && |payload| <= MAX_FLASH_LOG_PAYLOAD_SIZE && !busy, base)
      ensures code == Success
         <==> |payload| <= MAX_FLASH_LOG_PAYLOAD_SIZE && !busy
              && |Concat(base)| + EntrySize(|payload| as uint8) <= FLASH_LOG_SPACE
      ensures code == Success ==>
                && lastUsed == NextStamp(old(lastUsed), GetTstamp(uptime))
                && IsEntry(crc8, e, lastUsed, kind, payload) && entries == base + [e]
      ensures code == Invalid ==> entries == base && lastUsed == old(lastUsed)
      ensures old(InOrder()) && old(lastUsed) != ERASED_VALUE32 ==> InOrder()
      // Each failure is counted, as a lock failure or as an overflow.
      ensures lockFailures == if |payload| <= MAX_FLASH_LOG_PAYLOAD_SIZE && busy then (old(lockFailures) + 1) % UINT32
                              else old(lockFailures)
      ensures overflowFailures == if code == Invalid && |payload| <= MAX_FLASH_LOG_PAYLOAD_SIZE && !busy
                                  then (old(overflowFailures) + 1) % UINT32 else old(overflowFailures)
    {
      ghost var es, i, p := entries, readIndex, prevTimestamp;
      base, e, code := entries, [], Invalid;
      if |payload| <= MAX_FLASH_LOG_PAYLOAD_SIZE {
        if busy {
          lockFailures := (lockFailures + 1) % UINT32;
        } else {
          code, base, e := AddLocked(kind, payload, uptime, memory);
        }
      }
      KeepReaders(es, i, p, entries, readIndex, prevTimestamp);
    }

    /** report_failure: a counter is reported as one byte. */
    method ReportFailure(kind: uint8, counter: nat, uptime: nat, memory: bool, busy: bool) returns (reported: bool)
      requires Valid()
      modifies this`writeCursor, this`readCursor, this`prevTimestamp, this`entries, this`readIndex, this`lastUsed,
               this`lockFailures, this`overflowFailures, flash
      ensures Valid()
      ensures ReadersKept(old(entries), old(readIndex), old(prevTimestamp), entries, readIndex, prevTimestamp)
      ensures old(InOrder()) && old(lastUsed) != ERASED_VALUE32 ==> InOrder()
      ensures reported ==>
                entries != [] && IsEntry(crc8, entries[|entries| - 1], lastUsed, kind, [(counter % 256) as uint8])
      ensures lastUsed == if reported then NextStamp(old(lastUsed), GetTstamp(uptime)) else old(lastUsed)
    {
      var code, base, e := AddEventCore(kind, [(counter % 256) as uint8], uptime, memory, busy);
      reported := code == Success;
    }

    /** Lock failures of the past are reported, and forgotten when that succeeds. */
    method ReportLocks(uptime: nat, memory: bool, busy: bool)
      requires Valid()
      modifies this`writeCursor, this`readCursor, this`prevTimestamp, this`entries, this`readIndex, this`lastUsed,
               this`lockFailures, this`overflowFailures, flash
      ensures Valid()
      ensures ReadersKept(old(entries), old(readIndex), old(prevTimestamp), entries, readIndex, prevTimestamp)
      ensures old(InOrder()) && old(lastUsed) != ERASED_VALUE32 ==> InOrder()
      ensures lastUsed == old(lastUsed) || lastUsed == NextStamp(old(lastUsed), GetTstamp(uptime))
      ensures old(lockFailures) == 0 ==>
                && entries == old(entries) && lastUsed == old(lastUsed) && writeCursor == old(writeCursor)
                && overflowFailures == old(overflowFailures)
    {
      KeepReaders(entries, readIndex, prevTimestamp, entries, readIndex, prevTimestamp);
      if lockFailures != 0 {
        var reported := ReportFailure(FE_LOG_LOCKS, lockFailures, uptime, memory, busy);
        if reported {
          lockFailures := 0;
        }
      }
    }

    /** And so are overflows. */
    method ReportOverflows(uptime: nat, memory: bool, busy: bool)
      requires Valid()
      modifies this`writeCursor, this`readCursor, this`prevTimestamp, this`entries, this`readIndex, this`lastUsed,
               this`lockFailures, this`overflowFailures, flash
      ensures Valid()
      ensures ReadersKept(old(entries), old(readIndex), old(prevTimestamp), entries, readIndex, prevTimestamp)
      ensures old(InOrder()) && old(lastUsed) != ERASED_VALUE32 ==> InOrder()
      ensures lastUsed == old(lastUsed) || lastUsed == NextStamp(old(lastUsed), GetTstamp(uptime))
      ensures old(overflowFailures) == 0 ==>
                entries == old(entries) && lastUsed == old(lastUsed) && writeCursor == old(writeCursor)
    {
      KeepReaders(entries, readIndex, prevTimestamp, entries, readIndex, prevTimestamp);
      if overflowFailures != 0 {
        var reported := ReportFailure(FE_LOG_OVERFLOWS, overflowFailures, uptime, memory, busy);
        if reported {
          overflowFailures := 0;
        }
      }
    }

    method ReportFailures(uptime: nat, memory: bool, busy: bool)
      requires Valid()
      modifies this`writeCursor, this`readCursor, this`prevTimestamp, this`entries, this`readIndex, this`lastUsed,
               this`lockFailures, this`overflowFailures, flash
      ensures Valid()
      ensures ReadersKept(old(entries), old(readIndex), old(prevTimestamp), entries, readIndex, prevTimestamp)
      ensures old(InOrder()) && old(lastUsed) < ERASED_VALUE32 - 3 && GetTstamp(uptime) < ERASED_VALUE32 - 3 ==>
                InOrder() && lastUsed < ERASED_VALUE32 - 1
      ensures old(lockFailures) == 0 && old(overflowFailures) == 0 ==>
                entries == old(entries) && lastUsed == old(lastUsed) && writeCursor == old(writeCursor)
    {
      ReportLocks(uptime, memory, busy);
      ReportOverflows(uptime, memory, busy);
    }

    /** flash_log_add_event */
    method AddEvent(kind: uint8, payload: seq<uint8>, uptime: nat, memory: bool, busy: bool)
      returns (code: Code, ghost e: seq<uint8>)
      requires Valid()
      modifies this`writeCursor, this`readCursor, this`prevTimestamp, this`entries, this`readIndex, this`lastUsed,
               this`lockFailures, this`overflowFailures, flash
      ensures Valid()
      ensures ReadersKept(old(entries), old(readIndex), old(prevTimestamp), entries, readIndex, prevTimestamp)
      ensures code == Success ==> |payload| <= MAX_FLASH_LOG_PAYLOAD_SIZE && !busy
      ensures code == Success ==>
                entries != [] && entries[|entries| - 1] == e && IsEntry(crc8, e, lastUsed, kind, payload)
      ensures old(InOrder()) && old(lastUsed) < ERASED_VALUE32 - 3 && GetTstamp(uptime) < ERASED_VALUE32 - 3 ==>
                InOrder() && lastUsed < ERASED_VALUE32
      ensures old(lockFailures) == 0 && old(overflowFailures) == 0 && old(writeCursor) <= RUN_TIME_LOG_FULL_WATERMARK
              && payload == [] && !busy ==>
                && code == Success && entries == old(entries) + [e]
                && lastUsed == NextStamp(old(lastUsed), GetTstamp(uptime))
    {
      ReportFailures(uptime, memory, busy);
      ghost var base;
      code, base, e := AddEventCore(kind, payload, uptime, memory, busy);
    }

    // ----- reading events

    function StampAt(offset: nat, beyond: nat): nat
      requires flash.Length == FLASH_LOG_SPACE
      reads flash
    {
      StampIn(flash[..], offset, beyond)
    }

    /** What lies at the reader's place: an entry, or the end of the log. */
    lemma AtReader(beyond: nat)
      requires Valid()
      ensures readIndex < |entries| ==>
                var e := entries[readIndex];
                && 8 <= |e| && readCursor + |e| <= FLASH_LOG_SPACE && flash[readCursor..readCursor + |e|] == e
                && EntryIsValid(crc8, flash[..], readCursor) && EntrySize(flash[readCursor + 4]) == |e|
                && readCursor + |e| == |Concat(entries[..readIndex + 1])| && StampAt(readCursor, beyond) == Stamp(e)
                && e[4] == flash[readCursor + 4] && HEADER_SIZE + PayloadSize(e[4]) <= |e|
      ensures readIndex == |entries| ==>
                && readCursor == writeCursor && !EntryIsValid(crc8, flash[..], readCursor)
                && StampAt(readCursor, beyond) == if writeCursor == FLASH_LOG_SPACE then beyond else ERASED_VALUE32
    {
      if readIndex < |entries| {
        EntryFound(crc8, flash[..], entries, readIndex);
        var e := entries[readIndex];
        assert WellFormed(crc8, e);
        SubSlice(flash[..], readCursor, |e|, 0, 4);
        assert e[4] == flash[readCursor..readCursor + |e|][4];
      } else {
        assert entries[..readIndex] == entries;
        ConcatAligned(crc8, entries);
        NoEntryFound(crc8, flash[..], readCursor);
        if writeCursor < FLASH_LOG_SPACE {
          ErasedStamp(flash[..], writeCursor);
        }
      }
    }

    /** Moves the reader to the first entry. */
    method StartOver()
      requires Valid()
      modifies this`readCursor, this`prevTimestamp, this`readIndex
      ensures Valid() && readIndex == 0 && prevTimestamp == 0
    {
      readCursor, prevTimestamp, readIndex := 0, 0, 0;
      assert entries[..0] == [];
    }

    /** A whole entry lies at an offset. */
    ghost predicate Lies(at: nat, e: seq<uint8>)
      requires flash.Length == FLASH_LOG_SPACE
      reads flash
    {
      && |e| >= 8 && HEADER_SIZE + PayloadSize(e[4]) <= |e| && at + |e| <= FLASH_LOG_SPACE
      && flash[at..at + |e|] == e
    }

    /** Copies the entry found to the reader's buffer, if it fits. */
    method Deliver(at: nat, stamp: nat, bufferSize: nat, ghost e: seq<uint8>) returns (r: Dequeued)
      requires Valid() && Lies(at, e) && stamp < UINT32
      modifies this`readCursor, this`prevTimestamp, this`readIndex
      ensures Valid() && (r.Entry? || r == BufferTooSmall)
      ensures r.Entry? ==>
                r.bytes == Used(e) && |r.bytes| <= bufferSize && prevTimestamp == stamp && readIndex == old(readIndex)
      ensures r == BufferTooSmall ==>
                && readIndex == 0 && prevTimestamp == 0 && bufferSize < HEADER_SIZE + MAX_FLASH_LOG_PAYLOAD_SIZE
                && |Used(e)| > bufferSize
    {
      assert e[4] == flash[at..at + |e|][4];
      var copySize := PayloadSize(flash[at + 4]) + HEADER_SIZE;
      if copySize > bufferSize {
        StartOver();
        return BufferTooSmall;
      }
      prevTimestamp := stamp;
      SubSlice(flash[..], at, |e|, 0, copySize);
      return Entry(flash[at..at + copySize]);
    }

    /** Moves the reader past an entry, if there is one. */
    method PassOne(beyond: nat) returns (r: Found, at: nat, stamp: nat)
      requires Valid()
      modifies this`readCursor, this`readIndex
      ensures Valid() && readIndex == old(readIndex) + (if r == Later then 1 else 0)
      ensures r == Later ==>
                && Lies(at, entries[old(readIndex)]) && stamp == Stamp(entries[old(readIndex)]) != ERASED_VALUE32
      ensures r == End ==>
                readIndex == |entries| || (|entries[readIndex]| >= 8 && Stamp(entries[readIndex]) == ERASED_VALUE32)
      ensures r == Bad <==>
                old(readIndex) == |entries| && writeCursor == FLASH_LOG_SPACE && beyond != ERASED_VALUE32
    {
      AtReader(beyond);
      at := readCursor;
      stamp := StampAt(readCursor, beyond);
      if stamp == ERASED_VALUE32 {
        return End, at, stamp;
      }
      if !EntryIsValid(crc8, flash[..], readCursor) {
        return Bad, at, stamp;
      }
      readCursor := readCursor + EntrySize(flash[readCursor + 4]);
      readIndex := readIndex + 1;
      return Later, at, stamp;
    }

    /** The loop of flash_log_dequeue_event.  at is the entry found. */
    method Find(eventAfter: nat, beyond: nat) returns (r: Found, at: nat, stamp: nat)
      requires Valid()
      modifies this`readCursor, this`readIndex
      ensures Valid() && old(readIndex) <= readIndex
      ensures r == Later ==>
                && readIndex > old(readIndex) && NextFrom(entries, old(readIndex), readIndex - 1, eventAfter)
                && Lies(at, entries[readIndex - 1]) && stamp == Stamp(entries[readIndex - 1])
      ensures r == End ==>
                && EndsAt(entries, old(readIndex), readIndex, eventAfter)
                && !(readIndex == |entries| && writeCursor == FLASH_LOG_SPACE && beyond != ERASED_VALUE32)
      ensures r == Bad ==>
                && readIndex == |entries| && PassedFrom(entries, old(readIndex), readIndex, eventAfter)
                && writeCursor == FLASH_LOG_SPACE && beyond != ERASED_VALUE32
    {
      ghost var start := readIndex;
      while true
        invariant Valid() && PassedFrom(entries, start, readIndex, eventAfter)
        decreases |entries| - readIndex
      {
        r, at, stamp := PassOne(beyond);
        if r != Later || stamp > eventAfter {
          return;
        }
      }
    }

    method DequeueFrom(eventAfter: nat, bufferSize: nat, beyond: nat) returns (r: Dequeued)
      requires Valid()
      modifies this`readCursor, this`prevTimestamp, this`readIndex
      ensures Valid() && Answers(r, entries, old(readIndex), readIndex, prevTimestamp, eventAfter, bufferSize,
                                 writeCursor == FLASH_LOG_SPACE && beyond != ERASED_VALUE32)
      ensures r == NoMore || r == Corrupted ==> prevTimestamp == old(prevTimestamp)
    {
      PlaceIs(beyond);
      if readCursor > FLASH_LOG_SPACE - HEADER_SIZE {
        return NoMore;
      }
      r := Search(eventAfter, bufferSize, beyond);
    }

    /** A reader whose place is too near the end of the page is at the end of the log, and a reader at the end
        of a full log is there. */
    lemma PlaceIs(beyond: nat)
      requires Valid()
      ensures readCursor > FLASH_LOG_SPACE - HEADER_SIZE ==> readIndex == |entries|
      ensures readIndex == |entries| ==> readCursor == writeCursor
    {
      AtReader(beyond);
    }

    method Search(eventAfter: nat, bufferSize: nat, beyond: nat) returns (r: Dequeued)
      requires Valid() && (readIndex == |entries| ==> writeCursor < FLASH_LOG_SPACE)
      modifies this`readCursor, this`prevTimestamp, this`readIndex
      ensures Valid() && Answers(r, entries, old(readIndex), readIndex, prevTimestamp, eventAfter, bufferSize,
                                 writeCursor == FLASH_LOG_SPACE && beyond != ERASED_VALUE32)
      ensures r == NoMore || r == Corrupted ==> prevTimestamp == old(prevTimestamp)
    {
      var found, at, stamp := Find(eventAfter, beyond);
      ghost var place := readIndex;
      match found
      case End => r := NoMore;
      case Bad => r := Corrupted;
      case Later =>
        r := Deliver(at, stamp, bufferSize, entries[readIndex - 1]);
        DeliveredIs(r, entries, old(readIndex), place, readIndex, prevTimestamp, eventAfter, bufferSize,
                    writeCursor == FLASH_LOG_SPACE && beyond != ERASED_VALUE32);
    }

    /** Starts over when it has to, and searches. */
    method DequeueUnlocked(eventAfter: nat, bufferSize: nat, beyond: nat) returns (r: Dequeued)
      requires Valid()
      modifies this`readCursor, this`prevTimestamp, this`readIndex
      ensures Valid()
      ensures Answers(r, entries, if eventAfter == 0 || eventAfter < old(prevTimestamp) then 0 else old(readIndex),
                      readIndex, prevTimestamp, eventAfter, bufferSize,
                      writeCursor == FLASH_LOG_SPACE && beyond != ERASED_VALUE32)
      ensures r == NoMore || r == Corrupted ==>
                prevTimestamp == if eventAfter == 0 || eventAfter < old(prevTimestamp) then 0 else old(prevTimestamp)
    {
      if eventAfter == 0 || eventAfter < prevTimestamp {
        StartOver();
      }
      r := DequeueFrom(eventAfter, bufferSize, beyond);
    }

    /** flash_log_dequeue_event.  start is where the search starts.  In a log in order, the answer is right,
        for all entries in the log, exactly if the reader has passed enough. */
    method DequeueEvent(eventAfter: nat, bufferSize: nat, busy: bool, beyond: nat)
      returns (r: Dequeued, ghost start: nat)
      requires Valid()
      modifies this`readCursor, this`prevTimestamp, this`readIndex
      ensures Valid()
      ensures start == if eventAfter == 0 || eventAfter < old(prevTimestamp) then 0 else old(readIndex)
      ensures busy ==> r == Busy && readIndex == old(readIndex) && prevTimestamp == old(prevTimestamp)
      ensures !busy ==> Answers(r, entries, start, readIndex, prevTimestamp, eventAfter, bufferSize,
                                 writeCursor == FLASH_LOG_SPACE && beyond != ERASED_VALUE32)
      ensures !busy && (r == NoMore || r == Corrupted) ==>
                prevTimestamp == if eventAfter == 0 || eventAfter < old(prevTimestamp) then 0 else old(prevTimestamp)
      // When a log is taken for a corrupted one.
      ensures r == Corrupted <==>
                && !busy && start < |entries| && PassedFrom(entries, start, |entries|, eventAfter)
                && writeCursor == FLASH_LOG_SPACE && beyond != ERASED_VALUE32
      ensures !busy && r != BufferTooSmall && InOrder() && lastUsed < ERASED_VALUE32 ==>
                (Right(r, entries, eventAfter) <==> old(PassesEnough(entries, readIndex, prevTimestamp, eventAfter)))
      ensures InOrder() && lastUsed < ERASED_VALUE32 ==>
                ReaderFollows(entries, old(readIndex), old(prevTimestamp), readIndex, prevTimestamp, eventAfter, busy)
    {
      ghost var i, p := readIndex, prevTimestamp;
      start := if eventAfter == 0 || eventAfter < prevTimestamp then 0 else readIndex;
      if busy {
        return Busy, start;
      }
      r := DequeueUnlocked(eventAfter, bufferSize, beyond);
      AnswerIs(r, entries, lastUsed, i, p, start, readIndex, prevTimestamp, eventAfter, bufferSize,
               writeCursor == FLASH_LOG_SPACE && beyond != ERASED_VALUE32);
    }

    /** A reader that passes back the last timestamp it was given gets the first entry after it, of all
        entries in the log, or learns that there is none. */
    method ReadNext(eventAfter: nat, busy: bool, beyond: nat) returns (r: Dequeued)
      requires Valid() && InOrder() && lastUsed != ERASED_VALUE32
      requires Behind(entries, readIndex, prevTimestamp, eventAfter)
      modifies this`readCursor, this`prevTimestamp, this`readIndex
      ensures Valid()
      ensures if busy then r == Busy && readIndex == old(readIndex) && prevTimestamp == old(prevTimestamp)
              else Served(r, entries, readIndex, prevTimestamp, eventAfter)
      ensures r == Corrupted ==> entries != [] && writeCursor == FLASH_LOG_SPACE && beyond != ERASED_VALUE32
    {
      ghost var i, p, start := readIndex, prevTimestamp, 0;
      r, start := DequeueEvent(eventAfter, HEADER_SIZE + MAX_FLASH_LOG_PAYLOAD_SIZE, busy, beyond);
      if !busy {
        ReaderServed(r, entries, i, p, start, readIndex, prevTimestamp, eventAfter, lastUsed,
                     writeCursor == FLASH_LOG_SPACE && beyond != ERASED_VALUE32);
      }
    }

    // ----- startup

    /** The loop of flash_log_init: finds the entries that are there. */
    method Recover()
      requires Chained() && entries == [] && lastUsed == 0
      modifies this`writeCursor, this`tstampBase, this`lastUsed, this`entries
      ensures Chained() && IsChain(crc8, flash[..], entries)
      ensures lastUsed == LastStamp(entries) && (entries == [] <==> writeCursor == 0)
      ensures tstampBase == (lastUsed + 1) % UINT32
    {
      var cursor := 0;
      ghost var es := [];
      while EntryIsValid(crc8, flash[..], cursor)
        invariant AllWellFormed(crc8, es) && Concat(es) <= flash[..] && cursor == |Concat(es)|
        invariant lastUsed == LastStamp(es) && (es == [] <==> cursor == 0)
        invariant cursor <= FLASH_LOG_SPACE
        decreases FLASH_LOG_SPACE - cursor
      {
        var space := EntrySize(flash[cursor + 4]);
        ghost var e := flash[cursor..cursor + space];
        OneMoreEntry(crc8, flash[..], es, cursor, e);
        SubSlice(flash[..], cursor, space, 0, 4);
        lastUsed := Stamp(flash[cursor..cursor + 4]);
        es := es + [e];
        cursor := cursor + space;
      }
      tstampBase := (lastUsed + 1) % UINT32;
      writeCursor := cursor;
      entries := es;
      assert entries[..readIndex] == [];
    }

    /** flash_log_init.  chain is what is found in flash.  A page whose end is neither erased nor starts
        with an entry's timestamp is not part of this model, nor is a corrupted page without memory. */
    method Init(uptime: nat, memory: bool, beyond: nat) returns (corrupted: bool, ghost chain: seq<seq<uint8>>)
      requires Chained() && entries == [] && lastUsed == lockFailures == overflowFailures == 0
      requires forall es :: IsChain(crc8, flash[..], es) ==> EndsClean(flash[..], |Concat(es)|, memory, beyond)
      modifies this, flash
      ensures Valid() && IsChain(crc8, old(flash[..]), chain)
      ensures corrupted <==> StampIn(old(flash[..]), |Concat(chain)|, beyond) != ERASED_VALUE32
      ensures !corrupted && chain != [] ==>
                Base(chain, |Concat(chain)| > STARTUP_LOG_FULL_WATERMARK && memory,
                     entries) && lastUsed == LastStamp(chain)
      ensures !corrupted && chain == [] ==> |entries| == 1 && IsEntry(crc8, entries[0], lastUsed, FE_LOG_START, [])
      ensures corrupted ==>
                && entries != [] && Base(chain, true, entries[..|entries| - 1])
                && IsEntry(crc8, entries[|entries| - 1], lastUsed, FE_LOG_CORRUPTED, [])
    {
      Recover();
      chain := entries;
      corrupted := StampAt(writeCursor, beyond) != ERASED_VALUE32;
      if corrupted {
        AfterCorruption(uptime);
      } else if writeCursor > 0 {
        if writeCursor > STARTUP_LOG_FULL_WATERMARK {
          TryCompacting(memory);
        }
      } else {
        var code, e := AddEvent(FE_LOG_START, [], uptime, memory, false);
      }
    }

    method AfterCorruption(uptime: nat)
      requires Chained() && lockFailures == overflowFailures == 0
      modifies this, flash
      ensures Valid() && entries != [] && Base(old(entries), true, entries[..|entries| - 1])
      ensures IsEntry(crc8, entries[|entries| - 1], lastUsed, FE_LOG_CORRUPTED, [])
    {
      TryCompacting(true);
      ghost var base := entries;
      var code, e := AddEvent(FE_LOG_CORRUPTED, [], uptime, true, false);
      assert entries[..|entries| - 1] == base;
    }
  }

  /** The log ends in erased flash, or where it is corrupted and can be compacted. */
  ghost predicate EndsClean(log: seq<uint8>, o: nat, memory: bool, beyond: nat) {
    && o <= |log|
    && if StampIn(log, o, beyond) == ERASED_VALUE32 then log[o..] == Erased(|log| - o) else memory
  }

  /** A log that starts again from its flash page has the entries it had, less those a startup
      compaction drops; the clock goes on after the last of them. */
  method Restart(log: Log, uptime: nat, memory: bool, beyond: nat) returns (next: Log)
    requires log.Valid() && log.entries != [] && (log.writeCursor < FLASH_LOG_SPACE || beyond == ERASED_VALUE32)
    modifies log.flash
    ensures fresh(next) && next.flash == log.flash && next.Valid()
    ensures Base(old(log.entries), |Concat(old(log.entries))| > STARTUP_LOG_FULL_WATERMARK && memory, next.entries)
    ensures next.lastUsed == LastStamp(old(log.entries))
    ensures old(log.InOrder()) ==> next.InOrder()
  {
    ghost var es, page, last := log.entries, log.flash[..], log.lastUsed;
    OnlyChain(log.crc8, page, es, beyond);
    next := new Log(log.crc8, log.flash);
    var corrupted, chain := next.Init(uptime, memory, beyond);
    OneChain(log.crc8, page, es, chain, 0);
    if Ordered(es, last) {
      StillInOrder(es, last, |Concat(es)| > STARTUP_LOG_FULL_WATERMARK && memory, next.entries);
    }
  }

  /** The entries of a log in flash are the one chain in it. */
  lemma OnlyChain(crc8: Crc8, page: seq<uint8>, es: seq<seq<uint8>>, beyond: nat)
    requires |page| == FLASH_LOG_SPACE && ErasedIsInvalid(crc8) && AllWellFormed(crc8, es) && Concat(es) <= page
    requires page[|Concat(es)|..] == Erased(FLASH_LOG_SPACE - |Concat(es)|)
    requires |Concat(es)| < FLASH_LOG_SPACE || beyond == ERASED_VALUE32
    ensures IsChain(crc8, page, es)
    ensures forall fs :: IsChain(crc8, page, fs) ==> fs == es
    ensures StampIn(page, |Concat(es)|, beyond) == ERASED_VALUE32
  {
    NoEntryFound(crc8, page, |Concat(es)|);
    ConcatAligned(crc8, es);
    if |Concat(es)| + 4 <= |page| {
      ErasedStamp(page, |Concat(es)|);
    }
    forall fs | IsChain(crc8, page, fs)
      ensures fs == es
    {
      OneChain(crc8, page, es, fs, 0);
    }
  }

  lemma StillInOrder(es: seq<seq<uint8>>, last: nat, compacted: bool, base: seq<seq<uint8>>)
    requires Ordered(es, last) && es != [] && Base(es, compacted, base)
    ensures Ordered(base, LastStamp(es))
  {
    var n := |es| - 1;
    assert forall i :: 0 <= i < n ==> Stamp(es[i]) < Stamp(es[n]);
    BaseInOrder(es, compacted, base, LastStamp(es));
  }
}
