/** The receive queue of CEC messages: a circular buffer of bytes that holds whole messages, each
    after its length. */
module CecQueue {
  import opened Common

  const CEC_RX_BUFFER_SIZE: nat := 20
  const MAX_CEC_MSG_LEN: nat := 16

  type Message = s: seq<uint8> | 1 <= |s| <= MAX_CEC_MSG_LEN witness [0]

  datatype Code = Success | Invalid | Overflow | NothingQueued

  /** The bytes of the queued messages, oldest first. */
  ghost function Flat(msgs: seq<Message>): seq<uint8> {
    if msgs == [] then [] else [|msgs[0]| as uint8] + msgs[0] + Flat(msgs[1..])
  }

  lemma {:induction false} FlatAppend(msgs: seq<Message>, m: Message)
    ensures Flat(msgs + [m]) == Flat(msgs) + [|m| as uint8] + m
  {
    if msgs != [] {
      FlatAppend(msgs[1..], m);
      assert (msgs + [m])[1..] == msgs[1..] + [m];
    } else {
      assert Flat([]) == [] && (msgs + [m])[1..] == [];
    }
  }

  /** The lengths of the messages and one byte more for each. */
  ghost function Used(msgs: seq<Message>): nat {
    if msgs == [] then 0 else |msgs[0]| + 1 + Used(msgs[1..])
  }

  lemma {:induction false} FlatLength(msgs: seq<Message>)
    ensures |Flat(msgs)| == Used(msgs)
  {
    if msgs != [] {
      FlatLength(msgs[1..]);
    }
  }

  /** Two queues with the same bytes hold the same messages. */
  lemma {:induction false} FlatInjective(a: seq<Message>, b: seq<Message>)
    requires Flat(a) == Flat(b)
    ensures a == b
  {
    if a != [] && b != [] {
      var f, g := Flat(a), Flat(b);
      assert f[0] == |a[0]| as uint8 && g[0] == |b[0]| as uint8;
      assert f[1..|a[0]| + 1] == a[0] && g[1..|b[0]| + 1] == b[0];
      assert f[|a[0]| + 1..] == Flat(a[1..]) && g[|b[0]| + 1..] == Flat(b[1..]);
      FlatInjective(a[1..], b[1..]);
      assert a == [a[0]] + a[1..] && b == [b[0]] + b[1..];
    }
  }

  lemma HeadBytes(msgs: seq<Message>)
    requires msgs != []
    ensures var n := |msgs[0]|;
      && |Flat(msgs)| == Used(msgs) > n && Flat(msgs)[0] == n as uint8
      && (forall k :: 0 <= k < n ==> Flat(msgs)[k + 1] == msgs[0][k]) && Flat(msgs)[n + 1..] == Flat(msgs[1..])
  {
    FlatLength(msgs);
  }

  lemma OneMore(s: seq<uint8>, m: seq<uint8>, i: nat)
    requires i < |m|
    ensures s + ([0] + m[..i]) + [m[i]] == s + ([0] + m[..i + 1])
  {
  }

  lemma Overwritten(s: seq<uint8>, m: seq<uint8>, x: uint8)
    ensures (s + ([0] + m))[|s| := x] == s + [x] + m
  {
  }

  type Offset = x: nat | x < CEC_RX_BUFFER_SIZE

  /** The offset k bytes on from an offset, at most once around. */
  function From(offset: Offset, k: nat): (r: Offset)
    requires k <= CEC_RX_BUFFER_SIZE
  {
    if offset + k < CEC_RX_BUFFER_SIZE then offset + k else offset + k - CEC_RX_BUFFER_SIZE
  }

  /** The bytes of s lie in the buffer from an offset on. */
  ghost predicate Holds(b: seq<uint8>, offset: Offset, s: seq<uint8>)
    requires |b| == CEC_RX_BUFFER_SIZE
  {
    |s| <= CEC_RX_BUFFER_SIZE && forall k :: 0 <= k < |s| ==> b[From(offset, k)] == s[k]
  }

  /** Writing the byte after those held, or over one of them. */
  lemma Write(b: seq<uint8>, offset: Offset, s: seq<uint8>, k: nat, x: uint8)
    requires |b| == CEC_RX_BUFFER_SIZE && Holds(b, offset, s) && k <= |s| && k < CEC_RX_BUFFER_SIZE
    ensures Holds(b[From(offset, k) := x], offset, if k == |s| then s + [x] else s[k := x])
  {
  }

  lemma Prefix(b: seq<uint8>, offset: Offset, s: seq<uint8>, t: seq<uint8>)
    requires |b| == CEC_RX_BUFFER_SIZE && Holds(b, offset, s + t)
    ensures Holds(b, offset, s)
  {
    assert forall k :: 0 <= k < |s| ==> (s + t)[k] == s[k];
  }

  lemma FromStep(offset: Offset, k: nat)
    requires k < CEC_RX_BUFFER_SIZE
    ensures From(offset, k) == (offset + k) % CEC_RX_BUFFER_SIZE
    ensures (From(offset, k) + 1) % CEC_RX_BUFFER_SIZE == From(offset, k + 1)
    ensures From(offset, k + 1) == offset <==> k + 1 == CEC_RX_BUFFER_SIZE
  {
  }

  /** Dropping bytes at the front moves the offset on. */
  lemma Drop(b: seq<uint8>, offset: Offset, s: seq<uint8>, n: nat)
    requires |b| == CEC_RX_BUFFER_SIZE && Holds(b, offset, s) && n <= |s|
    ensures Holds(b, From(offset, n), s[n..])
  {
  }

  /** What is left in the buffer after its first message. */
  lemma PopHead(b: seq<uint8>, start: Offset, msgs: seq<Message>)
    requires |b| == CEC_RX_BUFFER_SIZE && msgs != [] && Used(msgs) < CEC_RX_BUFFER_SIZE && Holds(b, start, Flat(msgs))
    ensures var n := |msgs[0]|;
      && n < |Flat(msgs)| < CEC_RX_BUFFER_SIZE
      && From(start, 0) == start && b[start] == n as uint8
      && (forall k :: 0 <= k < n ==> Flat(msgs)[k + 1] == msgs[0][k])
      && n + 1 + Used(msgs[1..]) == Used(msgs)
      && Holds(b, From(start, n + 1), Flat(msgs[1..]))
      && From(From(start, n + 1), Used(msgs[1..])) == From(start, Used(msgs))
  {
    HeadBytes(msgs);
    assert b[From(start, 0)] == Flat(msgs)[0];
    Drop(b, start, Flat(msgs), |msgs[0]| + 1);
  }

  /** The next offset, which is k + 1 bytes on from the start. */
  method Next(offset: Offset, ghost start: Offset, ghost k: nat) returns (next: Offset)
    requires k < CEC_RX_BUFFER_SIZE && offset == From(start, k)
    ensures next == From(start, k + 1) && (next == start <==> k + 1 == CEC_RX_BUFFER_SIZE)
  {
    FromStep(start, k);
    next := (offset + 1) % CEC_RX_BUFFER_SIZE;
  }

  class Queue {
    var writeOffset: Offset
    var readOffset: Offset
    const buf: array<uint8>
    ghost var msgs: seq<Message>

    ghost predicate Valid()
      reads this, buf
    {
      && buf.Length == CEC_RX_BUFFER_SIZE
      && Used(msgs) < CEC_RX_BUFFER_SIZE
      && writeOffset == From(readOffset, Used(msgs))
      && Holds(buf[..], readOffset, Flat(msgs))
    }

    constructor ()
      ensures Valid() && msgs == [] && fresh(buf)
    {
      writeOffset, readOffset := 0, 0;
      buf := new uint8[CEC_RX_BUFFER_SIZE];
      msgs := [];
    }

    /** cec_rx_queue_flush */
    method Flush()
      requires Valid()
      modifies this
      ensures Valid() && msgs == []
    {
      readOffset := 0;
      writeOffset := 0;
      msgs := [];
    }

    /** Writes a byte after those held, or over one of them. */
    method Put(offset: Offset, x: uint8, ghost held: seq<uint8>, ghost k: nat)
      requires buf.Length == CEC_RX_BUFFER_SIZE && Holds(buf[..], readOffset, held)
      requires k <= |held| && k < CEC_RX_BUFFER_SIZE && offset == From(readOffset, k)
      modifies buf
      ensures Holds(buf[..], readOffset, if k == |held| then held + [x] else held[k := x])
    {
      Write(buf[..], readOffset, held, k, x);
      buf[offset] := x;
    }

    /** The copying loop of cec_rx_queue_push, after the byte kept for the length. */
    method CopyIn(msg: seq<uint8>, msgLen: nat, ghost held: seq<uint8>) returns (offset: Offset, fits: bool)
      requires buf.Length == CEC_RX_BUFFER_SIZE && Holds(buf[..], readOffset, held + [0])
      requires msgLen <= |msg| && |held| < CEC_RX_BUFFER_SIZE && writeOffset == From(readOffset, |held|)
      modifies buf
      ensures Holds(buf[..], readOffset, held)
      ensures fits <==> |held| + msgLen + 1 <= CEC_RX_BUFFER_SIZE
      ensures fits ==>
                && offset == From(readOffset, |held| + 1 + msgLen)
                && (offset == readOffset <==> |held| + 1 + msgLen == CEC_RX_BUFFER_SIZE)
                && Holds(buf[..], readOffset, held + ([0] + msg[..msgLen]))
    {
      offset := Next(writeOffset, readOffset, |held|);
      assert held + ([0] + msg[..0]) == held + [0];
      for i := 0 to msgLen
        invariant |held| + 1 + i <= CEC_RX_BUFFER_SIZE && offset == From(readOffset, |held| + 1 + i)
        invariant offset == readOffset <==> |held| + 1 + i == CEC_RX_BUFFER_SIZE
        invariant Holds(buf[..], readOffset, held + ([0] + msg[..i]))
      {
        if offset == readOffset {
          Prefix(buf[..], readOffset, held, [0] + msg[..i]);
          return offset, false;
        }
        Put(offset, msg[i], held + ([0] + msg[..i]), |held| + 1 + i);
        OneMore(held, msg, i);
        offset := Next(offset, readOffset, |held| + 1 + i);
      }
      Prefix(buf[..], readOffset, held, [0] + msg[..msgLen]);
      return offset, true;
    }

    /** cec_rx_queue_push: the length is written last. */
    method Push(msg: seq<uint8>, msgLen: nat) returns (code: Code)
      requires Valid() && msgLen <= |msg|
      modifies this, buf
      ensures Valid() && readOffset == old(readOffset)
      ensures code == (if msgLen > MAX_CEC_MSG_LEN || msgLen == 0 then Invalid
                       else if Used(old(msgs)) + msgLen + 1 >= CEC_RX_BUFFER_SIZE then Overflow
                       else Success)
      ensures msgs == if code == Success then old(msgs) + [msg[..msgLen]] else old(msgs)
      ensures code != Success ==> writeOffset == old(writeOffset)
    {
      if msgLen > MAX_CEC_MSG_LEN || msgLen == 0 {
        return Invalid;
      }
      ghost var used, held := Used(msgs), Flat(msgs);
      ghost var m := msg[..msgLen];
      FlatLength(msgs);
      FlatAppend(msgs, m);
      FlatLength(msgs + [m]);
      Put(writeOffset, 0, held, used);
      var offset, fits := CopyIn(msg, msgLen, held);
      // A write that catches up with the read offset would look like an empty queue.
      if !fits || offset == readOffset {
        return Overflow;
      }
      Put(writeOffset, msgLen as uint8, held + ([0] + m), used);
      Overwritten(held, m, msgLen as uint8);
      writeOffset := offset;
      msgs := msgs + [m];
      return Success;
    }

    /** The copying loop of cec_rx_queue_pop. */
    method CopyOut(msg: array<uint8>, n: nat, ghost start: Offset, ghost held: seq<uint8>)
      requires buf.Length == CEC_RX_BUFFER_SIZE && Holds(buf[..], start, held) && readOffset == From(start, 1)
      requires n < |held| < CEC_RX_BUFFER_SIZE && msg != buf && n <= msg.Length
      modifies this`readOffset, msg
      ensures readOffset == From(start, n + 1)
      ensures forall k :: 0 <= k < msg.Length ==> msg[k] == if k < n then held[k + 1] else old(msg[k])
    {
      for i := 0 to n
        invariant readOffset == From(start, i + 1)
        invariant forall k :: 0 <= k < msg.Length ==> msg[k] == if k < i then held[k + 1] else old(msg[k])
        modifies this`readOffset, msg
      {
        msg[i] := buf[readOffset];
        readOffset := Next(readOffset, start, i + 1);
      }
    }

    /** cec_rx_queue_pop */
    method Pop(msg: array<uint8>) returns (code: Code, msgLen: uint8)
      requires Valid() && msg != buf && msg.Length >= MAX_CEC_MSG_LEN
      modifies this`readOffset, this`msgs, msg
      ensures Valid() && writeOffset == old(writeOffset)
      ensures code == if old(msgs) == [] then NothingQueued else Success
      ensures old(msgs) == [] ==> msgLen == 0 && msgs == [] && msg[..] == old(msg[..])
      ensures old(msgs) != [] ==>
                && msgLen as int == |old(msgs)[0]| && msg[..msgLen] == old(msgs)[0] && msgs == old(msgs)[1..]
                && forall k :: msgLen as int <= k < msg.Length ==> msg[k] == old(msg[k])
    {
      msgLen := 0;
      if readOffset == writeOffset {
        return NothingQueued, msgLen;
      }
      ghost var start, m, bytes := readOffset, msgs[0], Flat(msgs);
      PopHead(buf[..], start, msgs);
      var length := buf[readOffset];
      if length == 0 || length as int > MAX_CEC_MSG_LEN {
        return NothingQueued, msgLen;
      }
      readOffset := Next(readOffset, start, 0);
      CopyOut(msg, length as int, start, bytes);
      msgs := msgs[1..];
      return Success, length;
    }
  }
}
