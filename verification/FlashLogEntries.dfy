/** Entries of the event log as bytes in flash, and which of them compaction keeps. */
module FlashLogEntries {
  import opened Common
  import opened Flash

  const FLASH_LOG_SPACE: nat := 0x800
  const HEADER_SIZE: nat := 7
  const MAX_FLASH_LOG_PAYLOAD_SIZE: nat := 63

  // A quarter, three quarters and nine tenths of the space.
  const COMPACTION_SPACE_PRESERVE: nat := 512
  const STARTUP_LOG_FULL_WATERMARK: nat := 1536
  const RUN_TIME_LOG_FULL_WATERMARK: nat := 1843

  const FE_LOG_START: uint8 := 0
  const FE_LOG_CORRUPTED: uint8 := 1
  const FE_LOG_OVERFLOWS: uint8 := 3
  const FE_LOG_LOCKS: uint8 := 4
  const FE_LOG_PAD: uint8 := 253

  const UINT32: nat := 0x1_0000_0000

  /** Erased flash; a timestamp of erased bytes ends the log. */
  const ERASED: uint8 := 255
  const ERASED_VALUE32: nat := UINT32 - 1

  type Crc8 = seq<uint8> -> uint8

  /** The lower six bits of the size are the payload size. */
  function PayloadSize(size: uint8): nat { size as nat % 64 }

  /** FLASH_LOG_ENTRY_SIZE: header and payload, rounded up to flash words. */
  function EntrySize(size: uint8): (n: nat)
    ensures PayloadSize(size) + HEADER_SIZE <= n <= PayloadSize(size) + HEADER_SIZE + 3 && n % 4 == 0 && 8 <= n <= 72
  {
    (PayloadSize(size) + HEADER_SIZE + 3) / 4 * 4
  }

  /** The timestamp of an entry, least significant byte first. */
  function Stamp(e: seq<uint8>): (t: nat)
    requires |e| >= 4
    ensures t < UINT32
  {
    e[0] as nat + 0x100 * e[1] as nat + 0x1_0000 * e[2] as nat + 0x100_0000 * e[3] as nat
  }

  function StampBytes(t: nat): (s: seq<uint8>)
    requires t < UINT32
    ensures |s| == 4 && Stamp(s) == t
  {
    var u := t / 256;
    var v := u / 256;
    [(t % 256) as uint8, (u % 256) as uint8, (v % 256) as uint8, (v / 256) as uint8]
  }

  /** An entry that fills its space, with the CRC of its header and payload. */
  ghost predicate WellFormed(crc8: Crc8, e: seq<uint8>) {
    && |e| >= HEADER_SIZE && |e| == EntrySize(e[4])
    && e[6] == crc8(e[..6] + [0] + e[HEADER_SIZE..HEADER_SIZE + PayloadSize(e[4])])
  }

  /** entry_is_valid */
  predicate EntryIsValid(crc8: Crc8, b: seq<uint8>, offset: nat) {
    && offset + 8 <= |b|
    && var size := b[offset + 4];
       && offset + EntrySize(size) <= |b|
       && b[offset + 6] == crc8(b[offset..offset + 6] + [0]
                                + b[offset + HEADER_SIZE..offset + HEADER_SIZE + PayloadSize(size)])
  }

  /** Erased flash is not an entry. */
  ghost predicate ErasedIsInvalid(crc8: Crc8) {
    crc8(Erased(6) + [0] + Erased(MAX_FLASH_LOG_PAYLOAD_SIZE)) != ERASED
  }

  /** The bytes of entries one after the other. */
  ghost function Concat(es: seq<seq<uint8>>): seq<uint8> {
    if es == [] then [] else es[0] + Concat(es[1..])
  }

  lemma {:induction false} ConcatAppend(a: seq<seq<uint8>>, b: seq<seq<uint8>>)
    ensures Concat(a + b) == Concat(a) + Concat(b)
  {
    if a == [] {
      assert a + b == b;
    } else {
      assert (a + b)[1..] == a[1..] + b;
      ConcatAppend(a[1..], b);
    }
  }

  lemma ConcatOne(e: seq<uint8>)
    ensures Concat([e]) == e
  {
    assert [e][1..] == [];
  }

  /** The bytes before, of and after entry k. */
  lemma ConcatAt(es: seq<seq<uint8>>, k: nat)
    requires k < |es|
    ensures Concat(es) == Concat(es[..k]) + Concat(es[k..])
    ensures Concat(es[..k + 1]) == Concat(es[..k]) + es[k]
    ensures Concat(es[k..]) == es[k] + Concat(es[k + 1..])
  {
    assert es == es[..k] + es[k..];
    ConcatAppend(es[..k], es[k..]);
    ConcatUpTo(es, k);
    assert es[k..][1..] == es[k + 1..];
  }

  lemma ConcatUpTo(es: seq<seq<uint8>>, k: nat)
    requires k < |es|
    ensures Concat(es[..k + 1]) == Concat(es[..k]) + es[k]
  {
    assert es[..k + 1] == es[..k] + [es[k]];
    ConcatAppend(es[..k], [es[k]]);
    ConcatOne(es[k]);
  }

  ghost predicate AllWellFormed(crc8: Crc8, es: seq<seq<uint8>>) {
    forall e {:trigger WellFormed(crc8, e)} :: e in es ==> WellFormed(crc8, e)
  }

  /** Where an entry lies, the code finds it. */
  lemma EntryFound(crc8: Crc8, b: seq<uint8>, es: seq<seq<uint8>>, k: nat)
    requires AllWellFormed(crc8, es) && Concat(es) <= b && k < |es|
    ensures var o := |Concat(es[..k])|;
      && o + |es[k]| <= |Concat(es)| && b[o..o + |es[k]|] == es[k] && |es[k]| >= 8
      && EntryIsValid(crc8, b, o) && EntrySize(b[o + 4]) == |es[k]|
      && |Concat(es[..k + 1])| == o + |es[k]|
  {
    ConcatAt(es, k);
    var o, e := |Concat(es[..k])|, es[k];
    assert e in es && WellFormed(crc8, e);
    Inside(b, Concat(es[..k]), e, Concat(es[k + 1..]));
    SliceIsValid(crc8, b, o, e);
  }

  lemma Inside<T>(b: seq<T>, x: seq<T>, y: seq<T>, z: seq<T>)
    requires x + (y + z) <= b
    ensures |x| + |y| <= |b| && b[|x|..|x| + |y|] == y
  {
    assert (x + (y + z))[|x|..|x| + |y|] == y;
    assert b[..|x + (y + z)|] == x + (y + z);
  }

  lemma SliceIsValid(crc8: Crc8, b: seq<uint8>, o: nat, e: seq<uint8>)
    requires WellFormed(crc8, e) && o + |e| <= |b| && b[o..o + |e|] == e
    ensures EntryIsValid(crc8, b, o) && EntrySize(b[o + 4]) == |e|
  {
    assert b[o + 4] == e[4] && b[o + 6] == e[6];
    var n := PayloadSize(e[4]);
    SubSlice(b, o, |e|, 0, 6);
    SubSlice(b, o, |e|, HEADER_SIZE, HEADER_SIZE + n);
  }

  /** Where flash is erased, the code finds no entry. */
  lemma NoEntryFound(crc8: Crc8, b: seq<uint8>, offset: nat)
    requires ErasedIsInvalid(crc8) && offset <= |b| && b[offset..] == Erased(|b| - offset)
    ensures !EntryIsValid(crc8, b, offset)
  {
    if offset + 8 <= |b| && offset + EntrySize(b[offset + 4]) <= |b| {
      forall i | offset <= i < |b|
        ensures b[i] == ERASED
      {
        assert b[i] == b[offset..][i - offset];
      }
      assert b[offset..offset + 6] == Erased(6);
      assert b[offset + HEADER_SIZE..offset + HEADER_SIZE + 63] == Erased(63);
    }
  }

  // ----- compaction

  /** The entries from f on are the longest run at the end that fits the space to preserve. */
  ghost predicate LongestFit(es: seq<seq<uint8>>, f: nat) {
    && f <= |es| && |Concat(es[f..])| <= COMPACTION_SPACE_PRESERVE
    && (forall j {:trigger TooLong(es, j)} :: 0 <= j < f ==> TooLong(es, j))
  }

  ghost predicate TooLong(es: seq<seq<uint8>>, j: nat)
    requires j <= |es|
  {
    |Concat(es[j..])| > COMPACTION_SPACE_PRESERVE
  }

  /** What an attempt to make room leaves of a log. */
  ghost predicate Base(es: seq<seq<uint8>>, compacted: bool, base: seq<seq<uint8>>) {
    if compacted then
      |base| <= |es| && base == es[|es| - |base|..] && LongestFit(es, |es| - |base|)
    else
      base == es
  }

  lemma WellFormedSuffix(crc8: Crc8, es: seq<seq<uint8>>, f: nat)
    requires AllWellFormed(crc8, es) && f <= |es|
    ensures AllWellFormed(crc8, es[f..])
  {
  }

  /** There is just one such run. */
  lemma OneLongestFit(es: seq<seq<uint8>>, f: nat, g: nat)
    requires LongestFit(es, f) && LongestFit(es, g)
    ensures f == g
  {
    assert f < g ==> TooLong(es, f);
    assert g < f ==> TooLong(es, g);
  }

  /** The bytes of entries f to k - 1, and of one more. */
  lemma ConcatRange(es: seq<seq<uint8>>, f: nat, k: nat)
    requires f <= k < |es|
    ensures Concat(es[f..k + 1]) == Concat(es[f..k]) + es[k]
    ensures Concat(es[f..]) == Concat(es[f..k]) + Concat(es[k..])
  {
    assert es[f..k + 1] == es[f..k] + [es[k]] && es[f..] == es[f..k] + es[k..];
    ConcatAppend(es[f..k], [es[k]]);
    ConcatAppend(es[f..k], es[k..]);
    ConcatOne(es[k]);
  }

  // ----- timestamps

  /** The timestamp after the last one used, for a given time. */
  function NextStamp(last: nat, now: nat): nat
    requires last < UINT32 && now < UINT32
  {
    if last >= now then (last + 1) % UINT32 else now
  }

  /** Timestamps are in strictly increasing order, from 1 on and up to the last one used. */
  ghost predicate Ordered(es: seq<seq<uint8>>, last: nat) {
    && (forall i :: 0 <= i < |es| ==> |es[i]| >= 8)
    && (forall i {:trigger Stamp(es[i])} :: 0 <= i < |es| ==> 0 < Stamp(es[i]) <= last)
    && (forall i, j {:trigger Stamp(es[i]), Stamp(es[j])} :: 0 <= i < j < |es| ==> Stamp(es[i]) < Stamp(es[j]))
  }

  /** A run at the end, and one entry more with a later timestamp, are in order. */
  lemma OrderKept(es: seq<seq<uint8>>, f: nat, last: nat, last': nat)
    requires Ordered(es, last) && f <= |es| && last <= last'
    ensures Ordered(es[f..], last')
  {
  }

  lemma BaseInOrder(es: seq<seq<uint8>>, compacted: bool, base: seq<seq<uint8>>, last: nat)
    requires Ordered(es, last) && Base(es, compacted, base)
    ensures Ordered(base, last)
  {
    if compacted {
      OrderKept(es, |es| - |base|, last, last);
    }
  }

  lemma OrderAppend(es: seq<seq<uint8>>, last: nat, e: seq<uint8>)
    requires Ordered(es, last) && |e| >= 8 && Stamp(e) > last
    ensures Ordered(es + [e], Stamp(e))
  {
  }

  lemma NextStampIncreases(last: nat, now: nat)
    requires last < UINT32 && now < UINT32
    ensures NextStamp(last, now) > last <==> last != UINT32 - 1
  {
  }

  /** A valid entry of this kind with this timestamp and payload. */
  ghost predicate IsEntry(crc8: Crc8, e: seq<uint8>, stamp: nat, kind: uint8, payload: seq<uint8>) {
    && |payload| <= MAX_FLASH_LOG_PAYLOAD_SIZE
    && WellFormed(crc8, e) && Stamp(e) == stamp && e[4] as nat == |payload| && e[5] == kind
    && e[HEADER_SIZE..HEADER_SIZE + |payload|] == payload
  }

  /** The entry flash_log_add_event_core writes. */
  method MakeEntry(crc8: Crc8, stamp: nat, kind: uint8, payload: seq<uint8>) returns (e: seq<uint8>)
    requires stamp < UINT32 && |payload| <= MAX_FLASH_LOG_PAYLOAD_SIZE
    ensures IsEntry(crc8, e, stamp, kind, payload) && |e| == EntrySize(|payload| as uint8)
  {
    var head := StampBytes(stamp) + [|payload| as uint8, kind];
    var crc := crc8(head + [0] + payload);
    ghost var entry := head + [crc] + payload;
    e := head + [crc] + payload;
    while |e| < EntrySize(|payload| as uint8)
      invariant entry <= e && |e| <= EntrySize(|payload| as uint8)
    {
      e := e + [FE_LOG_PAD];
    }
    assert e[..|entry|] == entry;
    assert e[..6] == head && e[4] == |payload| as uint8;
    assert e[HEADER_SIZE..HEADER_SIZE + |payload|] == payload;
    assert Stamp(e) == Stamp(StampBytes(stamp));
  }

  lemma NextInOrder(crc8: Crc8, es: seq<seq<uint8>>, last: nat, stamp: nat, e: seq<uint8>, kind: uint8,
                    payload: seq<uint8>)
    requires last < UINT32 && stamp < UINT32 && IsEntry(crc8, e, stamp, kind, payload)
    requires exists now | 0 <= now < UINT32 :: stamp == NextStamp(last, now)
    ensures Ordered(es, last) && last != ERASED_VALUE32 ==> Ordered(es + [e], stamp)
  {
    if Ordered(es, last) && last != ERASED_VALUE32 {
      OrderAppend(es, last, e);
    }
  }

  /** The timestamp of the last entry. */
  function LastStamp(es: seq<seq<uint8>>): (t: nat)
    ensures t < UINT32
  {
    if es == [] || |es[|es| - 1]| < 4 then 0 else Stamp(es[|es| - 1])
  }

  /** The timestamp field at an offset.  Past the last word of the log, it is what lies beyond. */
  function StampIn(log: seq<uint8>, offset: nat, beyond: nat): nat {
    if offset + 4 <= |log| then Stamp(log[offset..offset + 4]) else beyond
  }

  // ----- recovery

  /** The entries a page of flash starts with, followed by no other. */
  ghost predicate IsChain(crc8: Crc8, log: seq<uint8>, es: seq<seq<uint8>>) {
    AllWellFormed(crc8, es) && Concat(es) <= log && !EntryIsValid(crc8, log, |Concat(es)|)
  }

  lemma {:induction false} OneChain(crc8: Crc8, log: seq<uint8>, es: seq<seq<uint8>>, fs: seq<seq<uint8>>, k: nat)
    requires IsChain(crc8, log, es) && IsChain(crc8, log, fs) && k <= |es| && k <= |fs| && es[..k] == fs[..k]
    ensures es == fs
    decreases |es| - k
  {
    assert es[..|es|] == es && fs[..|fs|] == fs;
    if k < |es| {
      EntryFound(crc8, log, es, k);
    }
    if k < |fs| {
      EntryFound(crc8, log, fs, k);
    }
    if k < |es| && k < |fs| {
      assert es[..k + 1] == es[..k] + [es[k]] && fs[..k + 1] == fs[..k] + [fs[k]];
      OneChain(crc8, log, es, fs, k + 1);
    }
  }

  /** A valid entry found at the end of some entries is one more. */
  lemma OneMoreEntry(crc8: Crc8, log: seq<uint8>, es: seq<seq<uint8>>, offset: nat, e: seq<uint8>)
    requires AllWellFormed(crc8, es) && Concat(es) <= log && offset == |Concat(es)| && EntryIsValid(crc8, log, offset)
    requires e == log[offset..offset + EntrySize(log[offset + 4])]
    ensures AllWellFormed(crc8, es + [e]) && Concat(es + [e]) <= log && |Concat(es + [e])| == offset + |e|
  {
    var n := PayloadSize(log[offset + 4]);
    assert e[4] == log[offset + 4] && e[6] == log[offset + 6];
    SubSlice(log, offset, |e|, 0, 6);
    SubSlice(log, offset, |e|, HEADER_SIZE, HEADER_SIZE + n);
    assert WellFormed(crc8, e);
    ConcatAppend(es, [e]);
    ConcatOne(e);
    assert log[..offset] == Concat(es) && log[..offset] + e == log[..offset + |e|];
  }

  /** An entry without its padding. */
  function Used(e: seq<uint8>): seq<uint8> {
    if |e| >= 8 && HEADER_SIZE + PayloadSize(e[4]) <= |e| then e[..HEADER_SIZE + PayloadSize(e[4])] else e
  }

  lemma UsedStamp(e: seq<uint8>)
    requires |e| >= 8
    ensures |Used(e)| >= 4 && Stamp(Used(e)) == Stamp(e)
  {
  }

  /** What flash_log_dequeue_event returns: an entry, or why there is none. */
  datatype Dequeued = Entry(bytes: seq<uint8>) | NoMore | Busy | Corrupted | BufferTooSmall

  // ----- reading

  /** Entries start to j - 1 are no later than a timestamp. */
  ghost predicate PassedFrom(es: seq<seq<uint8>>, start: nat, j: nat, eventAfter: nat) {
    && start <= j <= |es|
    && (forall i :: start <= i < j ==> |es[i]| >= 8 && Stamp(es[i]) <= eventAfter && Stamp(es[i]) != ERASED_VALUE32)
  }

  /** Entry j is the first from start on that is later. */
  ghost predicate NextFrom(es: seq<seq<uint8>>, start: nat, j: nat, eventAfter: nat) {
    && PassedFrom(es, start, j, eventAfter) && j < |es|
    && |es[j]| >= 8 && Stamp(es[j]) > eventAfter && Stamp(es[j]) != ERASED_VALUE32
  }

  /** No entry from start on is later, up to the end or to a timestamp that looks erased. */
  ghost predicate EndsAt(es: seq<seq<uint8>>, start: nat, j: nat, eventAfter: nat) {
    && PassedFrom(es, start, j, eventAfter)
    && (j == |es| || (|es[j]| >= 8 && Stamp(es[j]) == ERASED_VALUE32))
  }

  /** Entries fill whole flash words. */
  lemma {:induction false} ConcatAligned(crc8: Crc8, es: seq<seq<uint8>>)
    requires AllWellFormed(crc8, es)
    ensures |Concat(es)| % 4 == 0
  {
    if es != [] {
      assert WellFormed(crc8, es[0]);
      WellFormedSuffix(crc8, es, 1);
      ConcatAligned(crc8, es[1..]);
    }
  }

  lemma ErasedStamp(log: seq<uint8>, o: nat)
    requires o + 4 <= |log| && log[o..] == Erased(|log| - o)
    ensures Stamp(log[o..o + 4]) == ERASED_VALUE32
  {
    var s := log[o..];
    assert log[o] == s[0] && log[o + 1] == s[1] && log[o + 2] == s[2] && log[o + 3] == s[3];
  }

  /** A search that starts at an entry runs to the end of a full log, and what lies beyond does not look
      erased. */
  predicate RunsOut(es: seq<seq<uint8>>, start: nat, place: nat, fullAndDirty: bool) {
    start < |es| == place && fullAndDirty
  }

  /** What a search from the entry start on gives, with the reader's place after it.  A full log is
      taken for corrupted when the search runs out of it. */
  ghost predicate Answers(r: Dequeued, es: seq<seq<uint8>>, start: nat, place: nat, prevTimestamp: nat,
                          eventAfter: nat, bufferSize: nat, fullAndDirty: bool) {
    match r
    case Entry(bytes) =>
      && place > 0 && NextFrom(es, start, place - 1, eventAfter)
      && prevTimestamp == Stamp(es[place - 1]) && bytes == Used(es[place - 1]) && |bytes| <= bufferSize
    case NoMore => EndsAt(es, start, place, eventAfter) && !RunsOut(es, start, place, fullAndDirty)
    case Corrupted => PassedFrom(es, start, place, eventAfter) && RunsOut(es, start, place, fullAndDirty)
    case BufferTooSmall =>
      && place == 0 && prevTimestamp == 0 && bufferSize < HEADER_SIZE + MAX_FLASH_LOG_PAYLOAD_SIZE
      && exists j: nat {:trigger NextFrom(es, start, j, eventAfter)} ::
           NextFrom(es, start, j, eventAfter) && |Used(es[j])| > bufferSize
    case Busy => false
  }

  /** The entry before a place has been found; it is given, or does not fit. */
  lemma DeliveredIs(r: Dequeued, es: seq<seq<uint8>>, start: nat, found: nat, place: nat, prevTimestamp: nat,
                    eventAfter: nat, bufferSize: nat, fullAndDirty: bool)
    requires found > 0 && NextFrom(es, start, found - 1, eventAfter) && (r.Entry? || r == BufferTooSmall)
    requires r.Entry? ==>
              && place == found && prevTimestamp == Stamp(es[found - 1])
              && r.bytes == Used(es[found - 1]) && |r.bytes| <= bufferSize
    requires r == BufferTooSmall ==>
              && place == prevTimestamp == 0 && bufferSize < HEADER_SIZE + MAX_FLASH_LOG_PAYLOAD_SIZE
              && |Used(es[found - 1])| > bufferSize
    ensures Answers(r, es, start, place, prevTimestamp, eventAfter, bufferSize, fullAndDirty)
  {
  }

  /** The entries before a reader's place are no later than the last timestamp it was given, or its
      next search starts over. */
  ghost predicate Behind(es: seq<seq<uint8>>, readIndex: nat, prevTimestamp: nat, eventAfter: nat) {
    eventAfter == 0 || eventAfter < prevTimestamp || (readIndex <= |es| && PassedFrom(es, 0, readIndex, eventAfter))
  }

  /** The timestamp of the entry before a reader's place. */
  function Reached(es: seq<seq<uint8>>, readIndex: nat): nat {
    if 0 < readIndex <= |es| && |es[readIndex - 1]| >= 4 then Stamp(es[readIndex - 1]) else 0
  }

  /** A reader passes zero, so that its search starts over, or less than the last timestamp it was given, or
      no less than what its place has reached. */
  predicate PassesEnough(es: seq<seq<uint8>>, readIndex: nat, prevTimestamp: nat, eventAfter: nat) {
    eventAfter == 0 || eventAfter < prevTimestamp || Reached(es, readIndex) <= eventAfter
  }

  /** In a log in order, that is to be behind. */
  lemma BehindIs(es: seq<seq<uint8>>, last: nat, readIndex: nat, prevTimestamp: nat, eventAfter: nat)
    requires Ordered(es, last) && last < ERASED_VALUE32 && readIndex <= |es|
    ensures Behind(es, readIndex, prevTimestamp, eventAfter)
       <==> PassesEnough(es, readIndex, prevTimestamp, eventAfter)
  {
    assert readIndex > 0 ==> forall i :: 0 <= i < readIndex ==> Stamp(es[i]) <= Stamp(es[readIndex - 1]);
  }

  /** The answer a reader is to have: the first later entry of all in the log, or that there is none. */
  ghost predicate Right(r: Dequeued, es: seq<seq<uint8>>, eventAfter: nat) {
    match r
    case Entry(bytes) =>
      exists j {:trigger es[j]} :: 0 <= j < |es| && NextFrom(es, 0, j, eventAfter) && bytes == Used(es[j])
    case _ => PassedFrom(es, 0, |es|, eventAfter)
  }

  /** A search that starts at s finds the first later entry of all exactly when the entries before s are
      no later. */
  lemma FirstOfAll(es: seq<seq<uint8>>, last: nat, s: nat, j: nat, eventAfter: nat, bytes: seq<uint8>)
    requires Ordered(es, last) && NextFrom(es, s, j, eventAfter) && bytes == Used(es[j])
    ensures Right(Entry(bytes), es, eventAfter) <==> PassedFrom(es, 0, s, eventAfter)
  {
    if k :| 0 <= k < |es| && NextFrom(es, 0, k, eventAfter) && bytes == Used(es[k]) {
      UsedStamp(es[j]);
      UsedStamp(es[k]);
      assert k == j;
    }
  }

  /** And a search that finds none is right exactly then. */
  lemma NoneOfAll(es: seq<seq<uint8>>, last: nat, s: nat, eventAfter: nat)
    requires Ordered(es, last) && PassedFrom(es, s, |es|, eventAfter)
    ensures PassedFrom(es, 0, |es|, eventAfter) <==> PassedFrom(es, 0, s, eventAfter)
  {
  }

  /** In a log in order, an answer is right exactly when the reader has passed enough. */
  lemma RightExactly(r: Dequeued, es: seq<seq<uint8>>, last: nat, i: nat, p: nat, start: nat, place: nat,
                       prevTimestamp: nat, eventAfter: nat, bufferSize: nat, fullAndDirty: bool)
    requires Ordered(es, last) && last < ERASED_VALUE32 && i <= |es|
    requires start == if eventAfter == 0 || eventAfter < p then 0 else i
    requires Answers(r, es, start, place, prevTimestamp, eventAfter, bufferSize, fullAndDirty) && r != BufferTooSmall
    ensures Right(r, es, eventAfter) <==> PassesEnough(es, i, p, eventAfter)
  {
    BehindIs(es, last, i, p, eventAfter);
    if r.Entry? {
      FirstOfAll(es, last, start, place - 1, eventAfter, r.bytes);
    } else {
      NoneOfAll(es, last, start, eventAfter);
    }
  }

  /** Whoever passes zero, or no less than a value, is behind. */
  ghost predicate Follows(es: seq<seq<uint8>>, readIndex: nat, prevTimestamp: nat, highest: nat) {
    forall ev: nat {:trigger Behind(es, readIndex, prevTimestamp, ev)} ::
      highest <= ev ==> Behind(es, readIndex, prevTimestamp, ev)
  }

  /** The highest value passed since zero, when another one is passed. */
  function Higher(highest: nat, eventAfter: nat): nat {
    if eventAfter < highest && eventAfter > 0 then highest else eventAfter
  }

  /** What a read keeps of that. */
  ghost predicate ReaderFollows(es: seq<seq<uint8>>, i: nat, p: nat, i': nat, p': nat, eventAfter: nat, busy: bool) {
    forall highest: nat {:trigger Follows(es, i, p, highest)} ::
      Follows(es, i, p, highest) ==> Follows(es, i', p', if busy then highest else Higher(highest, eventAfter))
  }

  /** A reader has passed nothing later than the highest value it was given, and the entry it has given. */
  lemma FollowsRead(r: Dequeued, es: seq<seq<uint8>>, last: nat, i: nat, p: nat, start: nat, place: nat,
                    prevTimestamp: nat, eventAfter: nat, bufferSize: nat, fullAndDirty: bool, highest: nat)
    requires Ordered(es, last) && last < ERASED_VALUE32 && i <= |es| && Follows(es, i, p, highest)
    requires start == if eventAfter == 0 || eventAfter < p then 0 else i
    requires Answers(r, es, start, place, prevTimestamp, eventAfter, bufferSize, fullAndDirty)
    ensures Follows(es, place, prevTimestamp, Higher(highest, eventAfter))
  {
    forall ev: nat | Higher(highest, eventAfter) <= ev
      ensures Behind(es, place, prevTimestamp, ev)
    {
      assert start > 0 ==> Behind(es, i, p, ev);
      assert PassedFrom(es, 0, start, ev);
    }
  }

  /** What the answer of a search means for a reader. */
  lemma AnswerIs(r: Dequeued, es: seq<seq<uint8>>, last: nat, i: nat, p: nat, start: nat, place: nat,
                 prevTimestamp: nat, eventAfter: nat, bufferSize: nat, fullAndDirty: bool)
    requires i <= |es| && start == if eventAfter == 0 || eventAfter < p then 0 else i
    requires Answers(r, es, start, place, prevTimestamp, eventAfter, bufferSize, fullAndDirty)
    ensures r == Corrupted <==> start < |es| && PassedFrom(es, start, |es|, eventAfter) && fullAndDirty
    ensures Ordered(es, last) && last < ERASED_VALUE32 ==>
              && (r != BufferTooSmall ==> (Right(r, es, eventAfter) <==> PassesEnough(es, i, p, eventAfter)))
              && ReaderFollows(es, i, p, place, prevTimestamp, eventAfter, false)
  {
    if Ordered(es, last) && last < ERASED_VALUE32 {
      if r != BufferTooSmall {
        RightExactly(r, es, last, i, p, start, place, prevTimestamp, eventAfter, bufferSize, fullAndDirty);
      }
      forall highest: nat | Follows(es, i, p, highest)
        ensures Follows(es, place, prevTimestamp, Higher(highest, eventAfter))
      {
        FollowsRead(r, es, last, i, p, start, place, prevTimestamp, eventAfter, bufferSize, fullAndDirty, highest);
      }
    }
  }

  lemma BehindKept(es: seq<seq<uint8>>, es': seq<seq<uint8>>, readIndex: nat, prevTimestamp: nat, eventAfter: nat)
    requires Behind(es, readIndex, prevTimestamp, eventAfter)
    requires readIndex <= |es| <= |es'| && es'[..readIndex] == es[..readIndex]
    ensures Behind(es', readIndex, prevTimestamp, eventAfter)
  {
    forall i | 0 <= i < readIndex
      ensures es'[i] == es[i]
    {
      assert es'[..readIndex][i] == es[..readIndex][i];
    }
  }

  /** What one operation keeps for every reader. */
  ghost predicate ReadersKept(es: seq<seq<uint8>>, i: nat, p: nat, es': seq<seq<uint8>>, i': nat, p': nat) {
    forall ev: nat {:trigger Behind(es', i', p', ev)} :: Behind(es, i, p, ev) ==> Behind(es', i', p', ev)
  }

  lemma KeepReaders(es: seq<seq<uint8>>, i: nat, p: nat, es': seq<seq<uint8>>, i': nat, p': nat)
    requires (i' == i && p' == p && i <= |es| <= |es'| && es'[..i] == es[..i]) || (i' == 0 && p' == 0)
    ensures ReadersKept(es, i, p, es', i', p')
  {
    forall ev: nat | Behind(es, i, p, ev)
      ensures Behind(es', i', p', ev)
    {
      if i' == i && p' == p && i <= |es| <= |es'| && es'[..i] == es[..i] {
        BehindKept(es, es', i, p, ev);
      }
    }
  }

  // ----- a reader over a run

  ghost predicate Increasing(stamps: seq<nat>) {
    forall i, j :: 0 <= i < j < |stamps| ==> stamps[i] < stamps[j]
  }

  /** The reader was given these timestamps, and every entry of the log up to the last of them. */
  ghost predicate ReadUpTo(es: seq<seq<uint8>>, last: nat, stamps: seq<nat>, eventAfter: nat) {
    && Increasing(stamps) && eventAfter <= last && eventAfter == (if stamps == [] then 0 else stamps[|stamps| - 1])
    && (forall i :: 0 <= i < |es| ==> |es[i]| >= 8 && (Stamp(es[i]) <= eventAfter ==> Stamp(es[i]) in stamps))
  }

  lemma ReadOneMore(es: seq<seq<uint8>>, last: nat, stamps: seq<nat>, eventAfter: nat, j: nat)
    requires Ordered(es, last) && ReadUpTo(es, last, stamps, eventAfter) && NextFrom(es, 0, j, eventAfter)
    ensures ReadUpTo(es, last, stamps + [Stamp(es[j])], Stamp(es[j]))
    ensures PassedFrom(es, 0, j + 1, Stamp(es[j]))
  {
    var s := stamps + [Stamp(es[j])];
    assert forall i :: j < i < |es| ==> Stamp(es[j]) < Stamp(es[i]);
    forall i | 0 <= i < |es| && Stamp(es[i]) <= Stamp(es[j])
      ensures Stamp(es[i]) in s
    {
      assert s[|s| - 1] == Stamp(es[j]);
      if i < j {
        assert Stamp(es[i]) <= eventAfter && Stamp(es[i]) in stamps;
      }
    }
  }

  lemma ReadAndAdded(es: seq<seq<uint8>>, compacted: bool, base: seq<seq<uint8>>, es': seq<seq<uint8>>, last: nat,
                     last': nat, stamps: seq<nat>, eventAfter: nat, e: seq<uint8>)
    requires Ordered(es, last) && ReadUpTo(es, last, stamps, eventAfter) && Base(es, compacted, base) && last <= last'
    requires es' == base || (es' == base + [e] && |e| >= 8 && Stamp(e) > last)
    ensures ReadUpTo(es', last', stamps, eventAfter)
  {
    var d := |es| - |base|;
    forall i | 0 <= i < |es'|
      ensures |es'[i]| >= 8 && (Stamp(es'[i]) <= eventAfter ==> Stamp(es'[i]) in stamps)
    {
      if i < |base| {
        assert es'[i] == es[i + d];
      }
    }
  }

  /** What a reader that was behind gets: the first later entry of all, or that there is none.  It is behind
      again. */
  ghost predicate Served(r: Dequeued, es: seq<seq<uint8>>, place: nat, prevTimestamp: nat, eventAfter: nat) {
    match r
    case Entry(bytes) =>
      && place > 0 && NextFrom(es, 0, place - 1, eventAfter) && bytes == Used(es[place - 1])
      && prevTimestamp == Stamp(es[place - 1]) && Behind(es, place, prevTimestamp, prevTimestamp)
    case Busy => false
    case BufferTooSmall => false
    case _ => PassedFrom(es, 0, |es|, eventAfter) && Behind(es, place, prevTimestamp, eventAfter)
  }

  lemma ReaderServed(r: Dequeued, es: seq<seq<uint8>>, i: nat, p: nat, start: nat, place: nat, prevTimestamp: nat,
                     eventAfter: nat, last: nat, fullAndDirty: bool)
    requires Ordered(es, last) && last < ERASED_VALUE32 && Behind(es, i, p, eventAfter)
    requires start == if eventAfter == 0 || eventAfter < p then 0 else i
    requires Answers(r, es, start, place, prevTimestamp, eventAfter, HEADER_SIZE + MAX_FLASH_LOG_PAYLOAD_SIZE,
                     fullAndDirty)
    ensures Served(r, es, place, prevTimestamp, eventAfter)
  {
    assert PassedFrom(es, 0, start, eventAfter);
    if r == NoMore {
      NothingAfter(es, start, place, eventAfter, last);
    }
  }

  lemma NothingAfter(es: seq<seq<uint8>>, s: nat, j: nat, eventAfter: nat, last: nat)
    requires PassedFrom(es, 0, s, eventAfter) && EndsAt(es, s, j, eventAfter) && Ordered(es, last)
    requires last < ERASED_VALUE32
    ensures j == |es| && PassedFrom(es, 0, |es|, eventAfter)
  {
  }
}
