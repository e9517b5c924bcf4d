/** Startup: the flash is read through, and what an interrupted transaction has left is undone. */
module NvRecover {
  import opened Common
  import opened NvLayout
  import opened NvLog
  import opened NvStore
  import opened NvLive
  import opened NvDevice
  import opened NvCompact

  /** The number of the item after the last finalized delimiter before item j, or low if there is none. */
  ghost function AfterFinal(log: seq<Item>, low: nat, j: nat): (m: nat)
    requires low <= j <= |log|
    ensures low <= m <= j && (m > low ==> IsFinalized(log[m - 1]))
    ensures forall k {:trigger IsFinalized(log[k])} :: m <= k < j ==> !IsFinalized(log[k])
  {
    if j == low || IsFinalized(log[j - 1]) then j else AfterFinal(log, low, j - 1)
  }

  lemma FinalStays(log: seq<Item>, low: nat, i: nat, j: nat)
    requires low <= i <= j <= |log| && forall k :: i <= k < j ==> !IsFinalized(log[k])
    ensures AfterFinal(log, low, j) == AfterFinal(log, low, i)
    decreases j
  {
    if i < j {
      FinalStays(log, low, i, j - 1);
    }
  }

  lemma NextFinal(log: seq<Item>, low: nat, j: nat)
    requires low <= j <= |log|
    ensures var k := NextVisible(log, j, false);
            if k == |log| then AfterFinal(log, low, k) == AfterFinal(log, low, j)
            else AfterFinal(log, low, k + 1) == if IsFinalized(log[k]) then k + 1 else AfterFinal(log, low, j)
  {
    FinalStays(log, low, j, NextVisible(log, j, false));
  }

  /** The tracker knows the finalized delimiter before item m, or that there is none. */
  ghost predicate Knows(s: Store, at: Tracker, m: nat)
    reads s
  {
    if m == s.low then at.dPage == None && at.dOffset == 0
    else m > 0 && at.dPage.Some? && s.IsPlace(at.dPage.value, at.dOffset, m - 1)
  }

  /** The loop of retrieve_nvmem_contents: reads all there is.  The controller is found again where the
      next container goes, and the last container is known. */
  method Rescan(s: Store) returns (at: Tracker, last: Item)
    requires s.Valid()
    ensures s.low <= |s.log| && s.To() >= 0 && AtPos(s.headers, at, s.To())
    ensures Knows(s, at, AfterFinal(s.log, s.low, |s.log|))
    ensures at.index == s.index && at.offset == s.offset
    ensures s.low < |s.log| ==> last == s.log[|s.log| - 1]
    ensures s.low == |s.log| ==> last == NO_ITEM
  {
    s.LowInLog();
    at, last := EMPTY_TRACKER, NO_ITEM;
    ghost var j := s.low;
    while true
      invariant Scanning(s, at, last, j)
      decreases |s.log| - j
    {
      var rc;
      rc, at, last, j := ScanNext(s, at, last, j);
      if rc != Success {
        s.SamePlace(at);
        return;
      }
    }
  }

  /** A scan has got to item j. */
  ghost predicate Scanning(s: Store, at: Tracker, last: Item, j: nat)
    reads s
  {
    && s.Valid() && s.To() >= 0 && s.At(at, j) && last == (if s.low < j then s.log[j - 1] else NO_ITEM)
    && Knows(s, at, AfterFinal(s.log, s.low, j))
  }

  method ScanNext(s: Store, at: Tracker, last: Item, ghost j: nat)
    returns (rc: Code, at': Tracker, last': Item, ghost k: nat)
    requires Scanning(s, at, last, j)
    ensures rc == Success ==> j < k && Scanning(s, at', last', k)
    ensures rc != Success ==>
              && AtPos(s.headers, at', s.To()) && Knows(s, at', AfterFinal(s.log, s.low, |s.log|))
              && last' == if s.low < |s.log| then s.log[|s.log| - 1] else NO_ITEM
  {
    ghost var m := AfterFinal(s.log, s.low, j);
    rc, at', last', k, m := ReadFurther(s, at, last, j, m);
    FinalAfter(s.log, s.low, j, k, rc == Success);
  }

  /** The last finalized delimiter, when the reader has been given item k - 1, or nothing. */
  lemma FinalAfter(log: seq<Item>, low: nat, j: nat, k: nat, read: bool)
    requires low <= j <= |log| && k == NextVisible(log, j, false) + (if read then 1 else 0) && k <= |log|
    requires !read ==> k == |log|
    ensures AfterFinal(log, low, k) == if read && IsFinalized(log[k - 1]) then k else AfterFinal(log, low, j)
  {
    NextFinal(log, low, j);
  }

  method ReadFurther(s: Store, at: Tracker, last: Item, ghost j: nat, ghost m: nat)
    returns (rc: Code, at': Tracker, last': Item, ghost k: nat, ghost m': nat)
    requires s.Valid() && s.low <= |s.log| && s.To() >= 0 && s.At(at, j) && Knows(s, at, m)
    requires last == if s.low < j then s.log[j - 1] else NO_ITEM
    ensures rc == Success ==> k == NextVisible(s.log, j, false) + 1 <= |s.log| && s.At(at', k)
    ensures rc != Success ==> k == NextVisible(s.log, j, false) == |s.log| && AtPos(s.headers, at', s.To())
    ensures last' == if s.low < k then s.log[k - 1] else NO_ITEM
    ensures m' == if rc == Success && IsFinalized(s.log[k - 1]) then k else m
    ensures Knows(s, at', m')
  {
    rc, at', last', k := s.Next(at, false, j, last);
    m' := m;
    if rc == Success {
      if IsFinalized(s.log[k]) {
        m' := k + 1;
      }
      k := k + 1;
    }
  }

  datatype Verdict = Consistent | Unfinished | Unrecoverable | RolledBack | Rebooted

  /** Items m to j - 1 have been deleted. */
  ghost predicate DeletedFrom(log: seq<Item>, was: seq<Item>, m: nat, j: nat) {
    && |log| == |was|
    && (forall k {:trigger log[k]} :: 0 <= k < |log| ==> log[k] == if m <= k < j then Deleted(was[k]) else was[k])
  }

  /** What followed the last finalized delimiter has been deleted, and a new one closes it. */
  ghost predicate Undone(log: seq<Item>, was: seq<Item>, low: nat)
    requires low <= |was|
  {
    && |log| == |was| + 1 && IsFinalized(log[|was|])
    && DeletedFrom(log[..|was|], was, AfterFinal(was, low, |was|), |was|)
  }

  /** Finds the page of a delimiter in the list. */
  method FindPage(s: Store, page: Option<nat>, upTo: nat) returns (index: nat)
    requires s.Valid() && upTo < |s.headers|
    ensures page.Some? && s.headers[0].number <= page.value < s.headers[0].number + upTo ==>
              index == page.value - s.headers[0].number
    ensures page.None? ==> index == 0
  {
    s.Parts();
    StoreListed(s.coder, s.headers, s.data, s.pageCount, s.offset, s.log, s.low, s.firsts);
    for i := 0 to upTo
      invariant page.Some? ==> !(s.headers[0].number <= page.value < s.headers[0].number + i)
    {
      assert s.headers[i].number == s.headers[0].number + i;
      if ListElement(s.headers, i) == page {
        return i;
      }
    }
    return 0;
  }

  /** A tracker at the last finalized delimiter, or at the start if there is none. */
  method AtDelimiter(s: Store, at: Tracker, ghost m: nat) returns (t: Tracker, ghost j: nat)
    requires s.Valid() && s.low <= m <= |s.log| && s.To() >= 0 && AtPos(s.headers, at, s.To()) && Knows(s, at, m)
    ensures s.At(t, j) && j == if m > s.low then m - 1 else s.low
  {
    s.LowInLog();
    s.Parts();
    StoreListed(s.coder, s.headers, s.data, s.pageCount, s.offset, s.log, s.low, s.firsts);
    j := if m > s.low then m - 1 else s.low;
    t := EMPTY_TRACKER.(page := at.dPage, offset := at.dOffset);
    if t.page == at.page {
      t := t.(index := at.index);
    } else {
      var i := FindPage(s, t.page, at.index);
      t := t.(index := i);
    }
    if m > s.low {
      PlaceInPages(s, at.dPage.value, at.dOffset, m - 1);
    }
  }

  /** A place of an item lies on a listed page. */
  lemma PlaceInPages(s: Store, page: nat, o: nat, i: nat)
    requires s.Valid() && s.low <= i < |s.log| && s.IsPlace(page, o, i)
    ensures s.headers[0].number <= page < s.headers[0].number + |s.headers|
  {
    s.Parts();
    ChainedItem(s.log, s.low, PageStart(s.headers[0]), s.To(), i);
    s.Parts();
    StoreListed(s.coder, s.headers, s.data, s.pageCount, s.offset, s.log, s.low, s.firsts);
  }

  /** The loop of verify_delimiter: deletes what a reader is given, from the last finalized delimiter on. */
  method DeleteRest(s: Store, t: Tracker, ghost m: nat, ghost j: nat) returns (rc: Code)
    requires s.Valid() && s.low <= m <= |s.log| && s.To() >= 0 && s.At(t, j) && j <= m <= j + 1
    requires m == j + 1 ==> IsFinalized(s.log[j])
    modifies s`data, s`log
    ensures rc == EndOfLog && s.Valid() && DeletedFrom(s.log, old(s.log), m, |s.log|)
  {
    ghost var was, i := s.log, j;
    var at := t;
    while true
      invariant s.Valid() && s.To() == old(s.To()) && s.At(at, i) && j <= i
      invariant DeletedFrom(s.log, was, m, i)
      decreases |was| - i
    {
      rc, at, i := DeleteNext(s, at, was, m, i);
      if rc != Success {
        return;
      }
    }
  }

  method DeleteNext(s: Store, t: Tracker, ghost was: seq<Item>, ghost m: nat, ghost i: nat)
    returns (rc: Code, t': Tracker, ghost i': nat)
    requires s.Valid() && s.To() >= 0 && s.At(t, i) && DeletedFrom(s.log, was, m, i) && m <= i + 1
    requires m == i + 1 ==> i < |was| && IsFinalized(was[i])
    modifies s`data, s`log
    ensures s.Valid() && s.To() == old(s.To()) && i <= i' <= |was| && DeletedFrom(s.log, was, m, i')
    ensures rc == Success ==> i < i' && s.At(t', i')
    ensures rc != Success ==> rc == EndOfLog && i' == |was|
  {
    var item;
    rc, t', item, i' := s.Next(t, false, i);
    Stepped(s.log, was, m, i, i');
    if rc == Success {
      s.Invalidate(t'.cPage, t'.cOffset, i');
      i' := i' + 1;
    }
  }

  /** What is stepped over has been deleted before. */
  lemma Stepped(log: seq<Item>, was: seq<Item>, m: nat, i: nat, k: nat)
    requires DeletedFrom(log, was, m, i) && i <= k <= |log| && m <= i + 1
    requires m == i + 1 ==> i < |was| && IsFinalized(was[i])
    requires k == NextVisible(log, i, false)
    ensures DeletedFrom(log, was, m, k)
  {
    forall n | 0 <= n < |log|
      ensures log[n] == if m <= n < k then Deleted(was[n]) else was[n]
    {
      if i <= n < k {
        assert !Visible(log[n], false);
      }
    }
  }

  ghost predicate IsDelimiter(e: Item) { e.copy == NN_OBJ_TRANSACTION_DEL }

  /** verify_delimiter, for what a scan has found.  The recovery from a delimiter that is not finalized
      is not part of this model. */
  method VerifyDelimiter(s: Store, at: Tracker, last: Item) returns (v: Verdict)
    requires s.Valid() && s.low <= |s.log| && s.To() >= 0 && AtPos(s.headers, at, s.To())
    requires Knows(s, at, AfterFinal(s.log, s.low, |s.log|)) && at.index == s.index && at.offset == s.offset
    requires last == if s.low < |s.log| then s.log[|s.log| - 1] else NO_ITEM
    modifies s`headers, s`data, s`index, s`offset, s`log, s`firsts
    ensures v != Unrecoverable
    ensures old(s.low) < |old(s.log)| ==>
              && (v == Consistent <==> IsFinalized(last))
              && (v == Unfinished <==> IsDelimiter(last) && !IsFinalized(last))
    ensures old(s.low) == |old(s.log)| ==> v != Unfinished
    ensures v == Consistent || v == Unfinished ==> s.Valid() && s.log == old(s.log)
    // It gives up only if there is no room for a delimiter.
    ensures v == Rebooted ==> old(s.Free()) <= CONTAINER_SIZE
    // Otherwise exactly the containers since the last finalized delimiter are deleted.
    ensures v == RolledBack ==> s.Valid() && EndsFinal(s) && Undone(s.log, old(s.log), s.low)
  {
    if at.index == 0 && at.offset == PAGE_HEADER_SIZE {
      NothingThere(s);
      return if at.dPage.None? then Consistent else Unrecoverable;
    }
    if last.copy == NN_OBJ_TRANSACTION_DEL {
      return if last.kind == NN_OBJ_OLD_COPY then Consistent else Unfinished;
    }
    ghost var was, m := s.log, AfterFinal(s.log, s.low, |s.log|);
    var t, j := AtDelimiter(s, at, m);
    var rc := DeleteRest(s, t, m, j);
    ghost var log := s.log;
    rc := s.AddFinalDelimiter();
    if rc != Success {
      return Rebooted;
    }
    assert s.log[..|was|] == log;
    return RolledBack;
  }

  /** At the very start of the first page there are no containers. */
  lemma NothingThere(s: Store)
    requires s.Valid() && s.index == 0 && s.offset == PAGE_HEADER_SIZE
    ensures s.low == |s.log|
  {
    FreshFence(s);
    LastFirst(s);
  }

  /** The live objects after a rollback are those before the transaction. */
  lemma LiveRolledBack(log: seq<Item>, was: seq<Item>, low: nat, m: nat)
    requires low <= |was| && m == AfterFinal(was, low, |was|) && Undone(log, was, low)
    ensures Live(log, low, |log|) == Live(was, low, m)
  {
    forall k | m <= k < |log|
      ensures !IsLive(log[k])
    {
      assert k < |was| ==> log[..|was|][k] == log[k];
    }
    LiveSplit(log, low, m, |log|);
    NoneLive(log, m, |log|);
    forall k | low <= k < m
      ensures log[k] == was[k]
    {
      assert log[..|was|][k] == log[k];
    }
    LivePrefix(log, was, low, m);
  }

  /** retrieve_nvmem_contents: after a save that was interrupted before its delimiter, the live objects
      are those before the save, and the flash is found consistent when it is read again, unless there is
      no room for a delimiter. */
  method Recover(s: Store) returns (v: Verdict)
    requires s.Valid()
    modifies s`headers, s`data, s`index, s`offset, s`log, s`firsts
    ensures v == Consistent || v == Unfinished || v == Rebooted
    ensures s.low <= |old(s.log)|
    ensures v == Rebooted ==> old(s.Free()) <= CONTAINER_SIZE
    ensures s.low < |old(s.log)| && IsFinalized(old(s.log)[|old(s.log)| - 1]) ==> v == Consistent && s.log == old(s.log)
    ensures v == Unfinished <==> s.low < |old(s.log)|
                                 && IsDelimiter(old(s.log)[|old(s.log)| - 1])
                                 && !IsFinalized(old(s.log)[|old(s.log)| - 1])
    ensures v == Consistent ==>
              && s.Valid() && EndsFinal(s)
              && Live(s.log, s.low, |s.log|) == Live(old(s.log), s.low, AfterFinal(old(s.log), s.low, |old(s.log)|))
    ensures v == Consistent && s.low < |old(s.log)| && !IsFinalized(old(s.log)[|old(s.log)| - 1]) ==>
              Undone(s.log, old(s.log), s.low)
  {
    s.LowInLog();
    ghost var was := s.log;
    var at, last := Rescan(s);
    v := VerifyDelimiter(s, at, last);
    if v == RolledBack {
      LiveRolledBack(s.log, was, s.low, AfterFinal(was, s.low, |was|));
      at, last := Rescan(s);
      v := VerifyDelimiter(s, at, last);
    }
  }
}
