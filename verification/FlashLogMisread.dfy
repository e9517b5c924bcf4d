/** What goes wrong for a reader of the event log: examples. */
module FlashLogMisread {
  import opened Common
  import opened Flash
  import opened FlashLogEntries
  import opened FlashLog

  const BUFFER_SIZE: nat := HEADER_SIZE + MAX_FLASH_LOG_PAYLOAD_SIZE

  /** A log in order, with a reader at its start. */
  ghost predicate AtStart(log: Log)
    reads log, log.flash
  {
    && log.Valid() && log.InOrder() && log.lastUsed != ERASED_VALUE32
    && log.readIndex == 0 && log.prevTimestamp == 0
  }

  /** A reader passes a value that no entry is later than, and then a smaller one.  It is told that there are no
      more entries, although the last one is later. */
  method GoBack(log: Log, high: nat, low: nat, beyond: nat) returns (first: Dequeued, second: Dequeued)
    requires AtStart(log) && log.entries != [] && (log.writeCursor < FLASH_LOG_SPACE || beyond == ERASED_VALUE32)
    requires 0 < low < Stamp(log.entries[|log.entries| - 1]) <= high
    modifies log`readCursor, log`prevTimestamp, log`readIndex
    ensures log.entries == old(log.entries) && first == second == NoMore
    ensures Right(first, log.entries, high) && !Right(second, log.entries, low)
  {
    ghost var start;
    first, start := log.DequeueEvent(high, BUFFER_SIZE, false, beyond);
    assert log.readIndex == |log.entries| && log.prevTimestamp == 0;
    second, start := log.DequeueEvent(low, BUFFER_SIZE, false, beyond);
  }

  /** Adds an event without a payload, without compaction. */
  method AddAt(log: Log, kind: uint8, uptime: nat)
    requires AtStart(log) && log.writeCursor + 8 <= FLASH_LOG_SPACE
    modifies log, log.flash
    ensures log.Valid() && log.InOrder() && log.readIndex == 0 && log.prevTimestamp == 0
    ensures log.writeCursor == old(log.writeCursor) + 8
    ensures log.lastUsed == NextStamp(old(log.lastUsed), (old(log.tstampBase) + uptime) % UINT32)
    ensures |log.entries| == |old(log.entries)| + 1 && log.entries[..|old(log.entries)|] == old(log.entries)
    ensures |log.entries[|old(log.entries)|]| >= 8 && Stamp(log.entries[|old(log.entries)|]) == log.lastUsed
    ensures log.tstampBase == old(log.tstampBase)
  {
    var code, base, e := log.AddEventCore(kind, [], uptime, false, false);
    ConcatAppend(base, [e]);
    ConcatOne(e);
  }

  /** Erased flash. */
  method Blank(crc8: Crc8) returns (log: Log)
    requires ErasedIsInvalid(crc8)
    ensures fresh(log) && fresh(log.flash) && AtStart(log) && log.entries == []
    ensures log.writeCursor == log.lastUsed == log.tstampBase == 0
  {
    var flash := new uint8[FLASH_LOG_SPACE](_ => ERASED);
    assert flash[..] == Erased(FLASH_LOG_SPACE);
    log := new Log(crc8, flash);
  }

  /** For example, with entries at the times 1 and 3: after a read that passes 5, one that passes 2 does not get
      the entry of time 3. */
  method OneAndThree(crc8: Crc8, kind: uint8) returns (first: Dequeued, second: Dequeued)
    requires ErasedIsInvalid(crc8)
    ensures first == second == NoMore
  {
    var log := Blank(crc8);
    AddAt(log, kind, 1);
    AddAt(log, kind, 3);
    assert Stamp(log.entries[0]) == 1 && Stamp(log.entries[1]) == 3;
    first, second := GoBack(log, 5, 2, ERASED_VALUE32);
  }

  /** Events without payloads fill the page.  A read that passes the time of the last of them finds no other,
      but is told that the log is corrupted, unless what lies beyond the page looks erased. */
  method FillUp(crc8: Crc8, kind: uint8, beyond: nat) returns (r: Dequeued)
    requires ErasedIsInvalid(crc8) && beyond != ERASED_VALUE32
    ensures r == Corrupted
  {
    var log := Blank(crc8);
    var n := 0;
    while n < FLASH_LOG_SPACE / 8
      invariant AtStart(log) && log.tstampBase == 0 && n <= FLASH_LOG_SPACE / 8 && log.writeCursor == 8 * n
      invariant log.lastUsed == n && |log.entries| == n && fresh(log) && fresh(log.flash)
    {
      AddAt(log, kind, n + 1);
      n := n + 1;
    }
    ghost var start;
    r, start := log.DequeueEvent(n, BUFFER_SIZE, false, beyond);
  }
}
