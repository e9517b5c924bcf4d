/** What is written is read back, over any number of pages. */
module NvReadBack {
  import opened Common
  import opened NvLayout
  import opened NvLog
  import opened NvStore
  import opened NvDevice

  /** A container to be written. */
  datatype Input = Input(kind: nat, generation: nat, body: seq<uint8>)

  ghost predicate Writable(c: Input) {
    c.kind < NN_OBJ_ERASED && c.generation < GENERATIONS && |c.body| <= MAX_OBJECT_SIZE
  }

  /** An item is what was to be written. */
  predicate IsInput(e: Item, c: Input) {
    e.kind == e.copy == c.kind && e.generation == c.generation && e.body == c.body
  }

  ghost predicate AreInputs(items: seq<Item>, inputs: seq<Input>) {
    |items| == |inputs| && forall k {:trigger items[k]} :: 0 <= k < |items| ==> IsInput(items[k], inputs[k])
  }

  /** The bytes some containers take. */
  ghost function InputBytes(inputs: seq<Input>, n: nat): nat
    requires n <= |inputs|
  {
    if n == 0 then 0 else InputBytes(inputs, n - 1) + AlignedSize(|inputs[n - 1].body|)
  }

  lemma {:induction false} InputBytesGrow(inputs: seq<Input>, n: nat, m: nat)
    requires n <= m <= |inputs|
    ensures InputBytes(inputs, n) <= InputBytes(inputs, m)
  {
    if n < m {
      InputBytesGrow(inputs, n, m - 1);
    }
  }

  /** Writes containers one after the other; it succeeds if there are more bytes left than they take. */
  method WriteAll(s: Store, inputs: seq<Input>) returns (rc: Code)
    requires s.Valid() && forall c <- inputs :: Writable(c)
    modifies s`headers, s`data, s`index, s`offset, s`log, s`firsts
    ensures rc == if inputs == [] || InputBytes(inputs, |inputs|) < old(s.Free()) then Success else Reboot
    ensures rc == Success ==> s.Valid() && old(s.log) <= s.log && AreInputs(s.log[|old(s.log)|..], inputs)
  {
    rc := Success;
    ghost var n := |s.log|;
    for i := 0 to |inputs|
      invariant rc == Success && s.Valid() && old(s.log) <= s.log && s.Free() == old(s.Free()) - InputBytes(inputs, i)
      invariant AreInputs(s.log[n..], inputs[..i]) && (i > 0 ==> s.Free() > 0)
    {
      ghost var log := s.log;
      assert Writable(inputs[i]);
      rc := s.SaveContainer(inputs[i].kind, inputs[i].generation, inputs[i].body);
      InputBytesGrow(inputs, i + 1, |inputs|);
      if rc != Success {
        return;
      }
      OneMore(log, n, inputs, i, s.log);
    }
    assert inputs[..|inputs|] == inputs;
  }

  lemma OneMore(log: seq<Item>, n: nat, inputs: seq<Input>, i: nat, log': seq<Item>)
    requires n <= |log| && i < |inputs| && AreInputs(log[n..], inputs[..i])
    requires |log'| == |log| + 1 && log <= log' && IsInput(log'[|log|], inputs[i])
    ensures AreInputs(log'[n..], inputs[..i + 1])
  {
    forall k | 0 <= k < |log'[n..]|
      ensures IsInput(log'[n..][k], inputs[..i + 1][k])
    {
      if k < i {
        assert log'[n..][k] == log[n..][k] && inputs[..i + 1][k] == inputs[..i][k];
      }
    }
  }

  /** Reads all containers, deleted ones as well.  The tracker ends up where the next container goes. */
  method ReadAll(s: Store) returns (items: seq<Item>, at: Tracker)
    requires s.Valid()
    ensures s.low <= |s.log| && items == s.log[s.low..] && s.To() >= 0 && AtPos(s.headers, at, s.To())
    ensures at.index == s.index && at.offset == s.offset
  {
    s.LowInLog();
    items, at := [], EMPTY_TRACKER;
    ghost var i := s.low;
    while true
      invariant s.To() >= 0 && s.At(at, i) && items == s.log[s.low..i]
      decreases |s.log| - i
    {
      var rc, item;
      ghost var j;
      rc, at, item, j := s.Next(at, true, i);
      if rc != Success {
        s.SamePlace(at);
        return;
      }
      items, i := items + [item], i + 1;
    }
  }

  /** Containers that are written are read back in order, after those that were there, and the reader ends
      at the writer's place.  Writing fails only when there is no room. */
  method WriteAndRead(s: Store, inputs: seq<Input>) returns (rc: Code, items: seq<Item>, at: Tracker)
    requires s.Valid() && forall c <- inputs :: Writable(c)
    modifies s`headers, s`data, s`index, s`offset, s`log, s`firsts
    ensures rc == if inputs == [] || InputBytes(inputs, |inputs|) < old(s.Free()) then Success else Reboot
    ensures rc == Success ==> s.Valid() && s.To() >= 0 && AtPos(s.headers, at, s.To())
    ensures rc == Success ==>
              && s.low <= |old(s.log)| && |items| == |old(s.log)| - s.low + |inputs|
              && items[..|old(s.log)| - s.low] == old(s.log)[s.low..]
              && AreInputs(items[|old(s.log)| - s.low..], inputs) && at.index == s.index && at.offset == s.offset
  {
    s.LowInLog();
    items, at := [], EMPTY_TRACKER;
    ghost var log := s.log;
    rc := WriteAll(s, inputs);
    if rc == Success {
      items, at := ReadAll(s);
      assert items[|log| - s.low..] == s.log[|log|..];
      assert s.log[s.low..][..|log| - s.low] == s.log[s.low..|log|] == log[s.low..];
    }
  }
}
