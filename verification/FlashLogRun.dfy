/** A reader of the event log over a whole run, with appends and compactions between its reads. */
module FlashLogRun {
  import opened Common
  import opened FlashLogEntries
  import opened FlashLog

  datatype Op =
    | Add(kind: uint8, payload: seq<uint8>, uptime: nat, memory: bool, busy: bool)
    | Read(busy: bool, beyond: nat)

  /** What reads were answered; an append has no answer. */
  type Reply = Option<Dequeued>

  /** The timestamps of the entries a reader was given. */
  ghost function StampsOf(replies: seq<Reply>): seq<nat> {
    if replies == [] then []
    else StampsOf(replies[..|replies| - 1]) + StampOf(replies[|replies| - 1])
  }

  function StampOf(reply: Reply): seq<nat> {
    match reply
    case Some(Entry(bytes)) => if |bytes| >= 4 then [Stamp(bytes)] else []
    case _ => []
  }

  /** The last of them, that the reader passes back, or zero. */
  ghost function LastOf(replies: seq<Reply>): nat {
    var stamps := StampsOf(replies);
    if stamps == [] then 0 else stamps[|stamps| - 1]
  }

  lemma StampsNext(replies: seq<Reply>, reply: Reply)
    ensures StampsOf(replies + [reply]) == StampsOf(replies) + StampOf(reply)
  {
    assert (replies + [reply])[..|replies|] == replies;
  }

  /** What an append does: old entries may be compacted away, and the new one is written if it fits. */
  ghost predicate Appended(crc8: Crc8, op: Op, es: seq<seq<uint8>>, es': seq<seq<uint8>>)
    requires op.Add?
  {
    var sound := |op.payload| <= MAX_FLASH_LOG_PAYLOAD_SIZE && !op.busy;
    var compacted := |Concat(es)| > RUN_TIME_LOG_FULL_WATERMARK && op.memory && sound;
    exists base {:trigger Base(es, compacted, base)} ::
      && Base(es, compacted, base)
      && if sound && |Concat(base)| + EntrySize(|op.payload| as uint8) <= FLASH_LOG_SPACE then
           |es'| == |base| + 1 && es'[..|base|] == base && IsNew(crc8, es'[|base|], op.kind, op.payload)
         else es' == base
  }

  /** A valid entry with a payload, whatever its timestamp. */
  ghost predicate IsNew(crc8: Crc8, e: seq<uint8>, kind: uint8, payload: seq<uint8>) {
    |e| >= 4 && IsEntry(crc8, e, Stamp(e), kind, payload)
  }

  /** The page is full, and what lies beyond it does not look erased. */
  ghost predicate FullAndDirty(es: seq<seq<uint8>>, beyond: nat) {
    es != [] && |Concat(es)| == FLASH_LOG_SPACE && beyond != ERASED_VALUE32
  }

  /** What a reader is told of the entries in the log at that time: the first one after the last it was
      given, or that it has been given all of them.  Only a full page is taken for corrupted. */
  ghost predicate Told(es: seq<seq<uint8>>, busy: bool, beyond: nat, before: seq<Reply>, r: Dequeued) {
    if busy then r == Busy
    else
      && Right(r, es, LastOf(before)) && r != Busy && r != BufferTooSmall
      && (r == Corrupted ==> FullAndDirty(es, beyond)) && (!r.Entry? ==> AllGiven(es, before))
  }

  ghost predicate AllGiven(es: seq<seq<uint8>>, before: seq<Reply>) {
    forall i {:trigger es[i]} :: 0 <= i < |es| ==> |es[i]| >= 8 && Stamp(es[i]) in StampsOf(before)
  }

  ghost predicate Step(crc8: Crc8, op: Op, es: seq<seq<uint8>>, es': seq<seq<uint8>>, before: seq<Reply>,
                       reply: Reply) {
    if op.Add? then reply == None && Appended(crc8, op, es, es')
    else es' == es && reply.Some? && Told(es, op.busy, op.beyond, before, reply.value)
  }

  /** The entries of the log before each operation, and at the end. */
  ghost predicate History(crc8: Crc8, ops: seq<Op>, logs: seq<seq<seq<uint8>>>, replies: seq<Reply>) {
    && |logs| == |replies| + 1 && |replies| <= |ops|
    && (forall n {:trigger replies[n]} :: 0 <= n < |replies| ==>
          Step(crc8, ops[n], logs[n], logs[n + 1], replies[..n], replies[n]))
  }

  lemma SamePast(replies: seq<Reply>, logs: seq<seq<seq<uint8>>>, reply: Reply, es: seq<seq<uint8>>, n: nat)
    requires |logs| == |replies| + 1 && n <= |replies|
    ensures (replies + [reply])[..n] == replies[..n] && (logs + [es])[n] == logs[n]
    ensures n < |replies| ==> (replies + [reply])[n] == replies[n] && (logs + [es])[n + 1] == logs[n + 1]
    ensures n == |replies| ==> (replies + [reply])[n] == reply && (logs + [es])[n + 1] == es && replies[..n] == replies
  {
  }

  lemma HistoryNext(crc8: Crc8, ops: seq<Op>, logs: seq<seq<seq<uint8>>>, replies: seq<Reply>, es: seq<seq<uint8>>,
                    reply: Reply)
    requires History(crc8, ops, logs, replies) && |replies| < |ops|
    requires Step(crc8, ops[|replies|], logs[|replies|], es, replies, reply)
    ensures History(crc8, ops, logs + [es], replies + [reply])
  {
    var all, pages := replies + [reply], logs + [es];
    forall n | 0 <= n < |all|
      ensures Step(crc8, ops[n], pages[n], pages[n + 1], all[..n], all[n])
    {
      SamePast(replies, logs, reply, es, n);
      if n < |replies| {
        assert Step(crc8, ops[n], logs[n], logs[n + 1], replies[..n], replies[n]);
      }
    }
  }

  /** The state of a log, and of a reader that was given these replies. */
  ghost predicate Tracks(log: Log, replies: seq<Reply>)
    reads log, log.flash
  {
    && log.Valid() && log.InOrder() && ReadUpTo(log.entries, log.lastUsed, StampsOf(replies), LastOf(replies))
    && Behind(log.entries, log.readIndex, log.prevTimestamp, LastOf(replies))
  }

  /** A reply without an entry changes nothing for the reader. */
  lemma NoStamp(replies: seq<Reply>, reply: Reply)
    requires StampOf(reply) == []
    ensures StampsOf(replies + [reply]) == StampsOf(replies) && LastOf(replies + [reply]) == LastOf(replies)
  {
    StampsNext(replies, reply);
    assert StampsOf(replies) + [] == StampsOf(replies);
  }

  lemma AppendedIs(crc8: Crc8, op: Op, es: seq<seq<uint8>>, es': seq<seq<uint8>>, base: seq<seq<uint8>>, e: seq<uint8>)
    requires op.Add?
    requires var sound := |op.payload| <= MAX_FLASH_LOG_PAYLOAD_SIZE && !op.busy;
             && Base(es, |Concat(es)| > RUN_TIME_LOG_FULL_WATERMARK && op.memory && sound, base)
             && if sound && |Concat(base)| + EntrySize(|op.payload| as uint8) <= FLASH_LOG_SPACE then
                  es' == base + [e] && IsNew(crc8, e, op.kind, op.payload)
                else es' == base
    ensures Appended(crc8, op, es, es')
  {
    if es' == base + [e] {
      assert es'[..|base|] == base && es'[|base|] == e;
    }
  }

  /** An append of any kind.  Old entries may go, and there may be a new one. */
  method AddAny(log: Log, op: Op) returns (ghost compacted: bool, ghost base: seq<seq<uint8>>, ghost e: seq<uint8>)
    requires log.Valid() && log.InOrder() && log.lastUsed != ERASED_VALUE32 && op.Add?
    modifies log, log.flash
    ensures log.Valid() && log.InOrder() && Appended(log.crc8, op, old(log.entries), log.entries)
    ensures ReadersKept(old(log.entries), old(log.readIndex), old(log.prevTimestamp),
                        log.entries, log.readIndex, log.prevTimestamp)
    ensures Base(old(log.entries), compacted, base) && old(log.lastUsed) <= log.lastUsed
    ensures log.entries == base || (log.entries == base + [e] && |e| >= 8 && Stamp(e) > old(log.lastUsed))
  {
    ghost var es, last, now := log.entries, log.lastUsed, log.GetTstamp(op.uptime);
    compacted := log.writeCursor > RUN_TIME_LOG_FULL_WATERMARK && op.memory
                 && |op.payload| <= MAX_FLASH_LOG_PAYLOAD_SIZE && !op.busy;
    var code;
    code, base, e := log.AddEventCore(op.kind, op.payload, op.uptime, op.memory, op.busy);
    NewIs(log.crc8, op, code, e, last, now, log.lastUsed);
    AppendedIs(log.crc8, op, es, log.entries, base, e);
  }

  /** The same for the reader. */
  method AddStep(log: Log, op: Op, ghost replies: seq<Reply>)
    requires Tracks(log, replies) && log.lastUsed != ERASED_VALUE32 && op.Add?
    modifies log, log.flash
    ensures Tracks(log, replies) && Appended(log.crc8, op, old(log.entries), log.entries)
  {
    ghost var es, last, stamps, ev := log.entries, log.lastUsed, StampsOf(replies), LastOf(replies);
    ghost var compacted, base, e := AddAny(log, op);
    ReadAndAdded(es, compacted, base, log.entries, last, log.lastUsed, stamps, ev, e);
  }

  /** The new entry is later than all before it. */
  lemma NewIs(crc8: Crc8, op: Op, code: FlashLog.Code, e: seq<uint8>, last: nat,
              now: nat, last': nat)
    requires op.Add? && last < UINT32 - 1 && now < UINT32
    requires code == Success ==> last' == NextStamp(last, now) && IsEntry(crc8, e, last', op.kind, op.payload)
    requires code != Success ==> last' == last
    ensures last <= last'
    ensures code == Success ==> IsNew(crc8, e, op.kind, op.payload) && |e| >= 8 && Stamp(e) > last
  {
    NextStampIncreases(last, now);
  }

  /** What a read means for the run. */
  lemma ToldIs(es: seq<seq<uint8>>, last: nat, replies: seq<Reply>, beyond: nat, r: Dequeued, place: nat,
               prevTimestamp: nat)
    requires Ordered(es, last) && ReadUpTo(es, last, StampsOf(replies), LastOf(replies))
    requires Served(r, es, place, prevTimestamp, LastOf(replies)) && (r == Corrupted ==> FullAndDirty(es, beyond))
    ensures Told(es, false, beyond, replies, r)
    ensures var all := replies + [Some(r)];
            && ReadUpTo(es, last, StampsOf(all), LastOf(all)) && Behind(es, place, prevTimestamp, LastOf(all))
            && LastOf(all) == if r.Entry? && |r.bytes| >= 4 then Stamp(r.bytes) else LastOf(replies)
  {
    if r.Entry? {
      UsedStamp(es[place - 1]);
      StampsNext(replies, Some(r));
      ReadOneMore(es, last, StampsOf(replies), LastOf(replies), place - 1);
    } else {
      NoStamp(replies, Some(r));
    }
  }

  method ReadStep(log: Log, op: Op, eventAfter: nat, ghost replies: seq<Reply>) returns (r: Dequeued, eventAfter': nat)
    requires Tracks(log, replies) && log.lastUsed != ERASED_VALUE32 && op.Read? && eventAfter == LastOf(replies)
    modifies log`readCursor, log`prevTimestamp, log`readIndex
    ensures Tracks(log, replies + [Some(r)]) && eventAfter' == LastOf(replies + [Some(r)])
    ensures Told(log.entries, op.busy, op.beyond, replies, r)
  {
    r := log.ReadNext(eventAfter, op.busy, op.beyond);
    if op.busy {
      NoStamp(replies, Some(r));
    } else {
      ToldIs(log.entries, log.lastUsed, replies, op.beyond, r, log.readIndex, log.prevTimestamp);
    }
    eventAfter' := if r.Entry? && |r.bytes| >= 4 then Stamp(r.bytes) else eventAfter;
  }

  /** One operation of a run. */
  method RunStep(log: Log, op: Op, eventAfter: nat, ghost replies: seq<Reply>) returns (reply: Reply, eventAfter': nat)
    requires Tracks(log, replies) && log.lastUsed != ERASED_VALUE32 && eventAfter == LastOf(replies)
    modifies log, log.flash
    ensures Tracks(log, replies + [reply]) && eventAfter' == LastOf(replies + [reply])
    ensures Step(log.crc8, op, old(log.entries), log.entries, replies, reply)
  {
    if op.Add? {
      NoStamp(replies, None);
      AddStep(log, op, replies);
      reply, eventAfter' := None, eventAfter;
    } else {
      var r;
      r, eventAfter' := ReadStep(log, op, eventAfter, replies);
      reply := Some(r);
    }
  }

  /** A reader that starts at zero and passes back the last timestamp it was given, with appends and
      compactions in between.  Every read gives the first entry after that in the log as it is then, or
      every entry in the log has been given; timestamps increase, so none is given twice.  The run ends
      early when the timestamps are used up. */
  method Traverse(log: Log, ops: seq<Op>) returns (replies: seq<Reply>, ghost logs: seq<seq<seq<uint8>>>)
    requires log.Valid() && log.InOrder()
    modifies log, log.flash
    ensures log.Valid() && log.InOrder() && History(log.crc8, ops, logs, replies)
    ensures logs[0] == old(log.entries) && logs[|replies|] == log.entries
    ensures |replies| < |ops| ==> log.lastUsed == ERASED_VALUE32
    ensures Increasing(StampsOf(replies))
  {
    replies, logs := [], [log.entries];
    var eventAfter := 0;
    for n := 0 to |ops|
      invariant Tracks(log, replies) && eventAfter == LastOf(replies) && |replies| == n
      invariant History(log.crc8, ops, logs, replies) && logs[0] == old(log.entries) && logs[n] == log.entries
    {
      if log.lastUsed == ERASED_VALUE32 {
        return;
      }
      var reply;
      reply, eventAfter := RunStep(log, ops[n], eventAfter, replies);
      HistoryNext(log.crc8, ops, logs, replies, log.entries, reply);
      replies, logs := replies + [reply], logs + [log.entries];
    }
  }

  // ----- any reader

  /** The highest value that reads have passed since zero was passed, before operation n. */
  ghost function Highest(ops: seq<Op>, passed: seq<nat>, n: nat): nat
    requires n <= |ops| == |passed|
  {
    if n == 0 then 0 else HigherAfter(ops[n - 1], passed[n - 1], Highest(ops, passed, n - 1))
  }

  function HigherAfter(op: Op, eventAfter: nat, highest: nat): nat {
    if op.Read? && !op.busy then Higher(highest, eventAfter) else highest
  }

  /** What a read is answered that passes any value.  It is right for zero, and for a value that is no less
      than those passed before. */
  ghost predicate Answered(es: seq<seq<uint8>>, op: Op, eventAfter: nat, highest: nat, r: Dequeued)
    requires op.Read?
  {
    if op.busy then r == Busy
    else
      && r != Busy && r != BufferTooSmall && (r == Corrupted ==> FullAndDirty(es, op.beyond))
      && (eventAfter == 0 || highest <= eventAfter ==> Right(r, es, eventAfter))
  }

  ghost predicate AnyStep(crc8: Crc8, op: Op, eventAfter: nat, highest: nat, es: seq<seq<uint8>>,
                          es': seq<seq<uint8>>, reply: Reply) {
    if op.Add? then reply == None && Appended(crc8, op, es, es')
    else es' == es && reply.Some? && Answered(es, op, eventAfter, highest, reply.value)
  }

  ghost predicate Transcript(crc8: Crc8, ops: seq<Op>, passed: seq<nat>, logs: seq<seq<seq<uint8>>>,
                             replies: seq<Reply>) {
    && |logs| == |replies| + 1 && |replies| <= |ops| == |passed|
    && (forall n {:trigger replies[n]} :: 0 <= n < |replies| ==>
          AnyStep(crc8, ops[n], passed[n], Highest(ops, passed, n), logs[n], logs[n + 1], replies[n]))
  }

  lemma TranscriptNext(crc8: Crc8, ops: seq<Op>, passed: seq<nat>, logs: seq<seq<seq<uint8>>>, replies: seq<Reply>,
                       es: seq<seq<uint8>>, reply: Reply)
    requires Transcript(crc8, ops, passed, logs, replies) && |replies| < |ops|
    requires var n := |replies|;
             AnyStep(crc8, ops[n], passed[n], Highest(ops, passed, n), logs[n], es, reply)
    ensures Transcript(crc8, ops, passed, logs + [es], replies + [reply])
  {
    var all, pages := replies + [reply], logs + [es];
    forall n | 0 <= n < |all|
      ensures AnyStep(crc8, ops[n], passed[n], Highest(ops, passed, n), pages[n], pages[n + 1], all[n])
    {
      SamePast(replies, logs, reply, es, n);
      if n < |replies| {
        assert AnyStep(crc8, ops[n], passed[n], Highest(ops, passed, n), logs[n], logs[n + 1], replies[n]);
      }
    }
  }

  /** The state of a log, and of a reader that has passed no value above the highest. */
  ghost predicate Serving(log: Log, highest: nat)
    reads log, log.flash
  {
    log.Valid() && log.InOrder() && Follows(log.entries, log.readIndex, log.prevTimestamp, highest)
  }

  method AnyRead(log: Log, op: Op, eventAfter: nat, ghost highest: nat) returns (r: Dequeued)
    requires Serving(log, highest) && log.lastUsed != ERASED_VALUE32 && op.Read?
    modifies log`readCursor, log`prevTimestamp, log`readIndex
    ensures Serving(log, HigherAfter(op, eventAfter, highest)) && Answered(log.entries, op, eventAfter, highest, r)
  {
    BehindIs(log.entries, log.lastUsed, log.readIndex, log.prevTimestamp, eventAfter);
    assert eventAfter == 0 || highest <= eventAfter ==>
             Behind(log.entries, log.readIndex, log.prevTimestamp, eventAfter);
    ghost var start;
    r, start := log.DequeueEvent(eventAfter, HEADER_SIZE + MAX_FLASH_LOG_PAYLOAD_SIZE, op.busy, op.beyond);
  }

  method AnyOp(log: Log, op: Op, eventAfter: nat, ghost highest: nat) returns (reply: Reply)
    requires Serving(log, highest) && log.lastUsed != ERASED_VALUE32
    modifies log, log.flash
    ensures Serving(log, HigherAfter(op, eventAfter, highest))
    ensures AnyStep(log.crc8, op, eventAfter, highest, old(log.entries), log.entries, reply)
  {
    if op.Add? {
      ghost var compacted, base, e := AddAny(log, op);
      reply := None;
    } else {
      var r := AnyRead(log, op, eventAfter, highest);
      reply := Some(r);
    }
  }

  /** A reader that passes whatever it likes, with appends and compactions in between: every read that passes
      zero, or no less than what was passed since zero, gives the first later entry of all in the log as it is
      then, or there is none. */
  method Serve(log: Log, ops: seq<Op>, passed: seq<nat>)
    returns (replies: seq<Reply>, ghost logs: seq<seq<seq<uint8>>>)
    requires log.Valid() && log.InOrder() && log.readIndex == 0 && |passed| == |ops|
    modifies log, log.flash
    ensures log.Valid() && log.InOrder() && Transcript(log.crc8, ops, passed, logs, replies)
    ensures logs[0] == old(log.entries) && logs[|replies|] == log.entries
    ensures |replies| < |ops| ==> log.lastUsed == ERASED_VALUE32
  {
    replies, logs := [], [log.entries];
    for n := 0 to |ops|
      invariant Serving(log, Highest(ops, passed, n)) && |replies| == n
      invariant Transcript(log.crc8, ops, passed, logs, replies)
      invariant logs[0] == old(log.entries) && logs[n] == log.entries
    {
      if log.lastUsed == ERASED_VALUE32 {
        return;
      }
      var reply := AnyOp(log, ops[n], passed[n], Highest(ops, passed, n));
      TranscriptNext(log.crc8, ops, passed, logs, replies, log.entries, reply);
      replies, logs := replies + [reply], logs + [log.entries];
    }
  }
}
