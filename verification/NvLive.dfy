/** The live objects of a log. */
module NvLive {
  import opened Common
  import opened NvLayout
  import opened NvLog
  import opened NvStore

  /** What an object is, wherever it is stored: its type and its bytes. */
  datatype Obj = Obj(kind: nat, body: seq<uint8>)

  /** Tuples, reserved and evictable objects are live until they are deleted. */
  predicate IsLive(e: Item) {
    e.kind == NN_OBJ_TUPLE || e.kind == NN_OBJ_TPM_RESERVED || e.kind == NN_OBJ_TPM_EVICTABLE
  }

  /** The live objects among items i to j - 1, in order. */
  ghost function Live(log: seq<Item>, i: nat, j: nat): seq<Obj>
    requires j <= |log|
    decreases j
  {
    if i >= j then []
    else Live(log, i, j - 1) + if IsLive(log[j - 1]) then [Obj(log[j - 1].kind, log[j - 1].body)] else []
  }

  lemma {:induction false} LiveSplit(log: seq<Item>, i: nat, k: nat, j: nat)
    requires i <= k <= j <= |log|
    ensures Live(log, i, j) == Live(log, i, k) + Live(log, k, j)
    decreases j
  {
    if k < j {
      LiveSplit(log, i, k, j - 1);
    }
  }

  /** Only the items themselves matter. */
  lemma {:induction false} LivePrefix(log: seq<Item>, log': seq<Item>, i: nat, j: nat)
    requires j <= |log| && j <= |log'|
    requires forall k :: i <= k < j ==> log[k] == log'[k] || (!IsLive(log[k]) && !IsLive(log'[k]))
    ensures Live(log, i, j) == Live(log', i, j)
    decreases j
  {
    if i < j {
      LivePrefix(log, log', i, j - 1);
    }
  }

  /** No live objects among items that are not. */
  lemma {:induction false} NoneLive(log: seq<Item>, i: nat, j: nat)
    requires j <= |log| && forall k :: i <= k < j ==> !IsLive(log[k])
    ensures Live(log, i, j) == []
    decreases j
  {
    if i < j {
      NoneLive(log, i, j - 1);
    }
  }

  /** All of some items are live. */
  lemma {:induction false} AllLive(log: seq<Item>, i: nat, j: nat)
    requires i <= j <= |log| && forall k {:trigger log[k]} :: i <= k < j ==> IsLive(log[k])
    ensures |Live(log, i, j)| == j - i
    ensures forall k {:trigger Live(log, i, j)[k]} :: 0 <= k < j - i ==>
              Live(log, i, j)[k] == Obj(log[i + k].kind, log[i + k].body)
    decreases j
  {
    if i < j {
      AllLive(log, i, j - 1);
    }
  }

  /** What a reader steps over is not live. */
  lemma SteppedOver(log: seq<Item>, i: nat)
    requires i <= |log|
    ensures Live(log, i, NextVisible(log, i, false)) == []
  {
    NoneLive(log, i, NextVisible(log, i, false));
  }

  /** Deleting a live item takes its object out of the live ones. */
  lemma LiveDelete(log: seq<Item>, i: nat, k: nat)
    requires i <= k < |log| && IsLive(log[k])
    ensures var rest := Live(log, k + 1, |log|);
      && Live(log, i, |log|) == Live(log, i, k) + [Obj(log[k].kind, log[k].body)] + rest
      && Live(log[k := Deleted(log[k])], i, |log|) == Live(log, i, k) + rest
  {
    var log' := log[k := Deleted(log[k])];
    LiveSplit(log, i, k + 1, |log|);
    LiveSplit(log', i, k + 1, |log|);
    LivePrefix(log, log', k + 1, |log|);
    LivePrefix(log, log', i, k);
    assert Live(log', i, k + 1) == Live(log', i, k) + [];
  }

  /** An item that is not live can be deleted. */
  lemma DeadDelete(log: seq<Item>, i: nat, k: nat)
    requires k < |log| && !IsLive(log[k])
    ensures Live(log[k := Deleted(log[k])], i, |log|) == Live(log, i, |log|)
  {
    LivePrefix(log, log[k := Deleted(log[k])], i, |log|);
  }

  lemma LiveAppend(log: seq<Item>, i: nat, e: Item)
    requires i <= |log|
    ensures Live(log + [e], i, |log + [e]|) == Live(log, i, |log|) + if IsLive(e) then [Obj(e.kind, e.body)] else []
  {
    LivePrefix(log, log + [e], i, |log|);
  }

  /** The bytes objects take as containers. */
  ghost function Sizes(objs: seq<Obj>): nat {
    if objs == [] then 0 else Sizes(objs[..|objs| - 1]) + AlignedSize(|objs[|objs| - 1].body|)
  }

  ghost function LiveSize(e: Item): nat { if IsLive(e) then AlignedSize(|e.body|) else 0 }

  lemma SizesNext(objs: seq<Obj>, o: Obj)
    ensures Sizes(objs + [o]) == Sizes(objs) + AlignedSize(|o.body|)
  {
    assert (objs + [o])[..|objs|] == objs;
  }

  lemma {:induction false} SizesConcat(a: seq<Obj>, b: seq<Obj>)
    ensures Sizes(a + b) == Sizes(a) + Sizes(b)
  {
    if b == [] {
      assert a + b == a;
    } else {
      var init, o := b[..|b| - 1], b[|b| - 1];
      SizesConcat(a, init);
      SizesNext(a + init, o);
      assert a + b == (a + init) + [o];
    }
  }

  /** The bytes the live objects among items i to j - 1 take. */
  ghost function LiveBytes(log: seq<Item>, i: nat, j: nat): nat
    requires j <= |log|
    decreases j
  {
    if i >= j then 0 else LiveBytes(log, i, j - 1) + LiveSize(log[j - 1])
  }

  lemma {:induction false} LiveBytesAre(log: seq<Item>, i: nat, j: nat)
    requires j <= |log|
    ensures LiveBytes(log, i, j) == Sizes(Live(log, i, j))
    decreases j
  {
    if i < j {
      LiveBytesAre(log, i, j - 1);
      if IsLive(log[j - 1]) {
        SizesNext(Live(log, i, j - 1), Obj(log[j - 1].kind, log[j - 1].body));
      } else {
        assert Live(log, i, j - 1) + [] == Live(log, i, j - 1);
      }
    }
  }

  lemma {:induction false} LiveBytesGrow(log: seq<Item>, i: nat, k: nat, j: nat)
    requires k <= j <= |log|
    ensures LiveBytes(log, i, k) <= LiveBytes(log, i, j)
    decreases j
  {
    if k < j {
      LiveBytesGrow(log, i, k, j - 1);
    }
  }

  lemma {:induction false} DeadBytes(log: seq<Item>, i: nat, k: nat, j: nat)
    requires i <= k <= j <= |log| && forall n :: k <= n < j ==> !IsLive(log[n])
    ensures LiveBytes(log, i, j) == LiveBytes(log, i, k)
    decreases j
  {
    if k < j {
      DeadBytes(log, i, k, j - 1);
    }
  }

  /** What reading the next object adds. */
  lemma BytesRead(log: seq<Item>, i: nat, r: nat)
    requires i <= r <= |log| && NextVisible(log, r, false) < |log|
    ensures var j := NextVisible(log, r, false);
            LiveBytes(log, i, j + 1) == LiveBytes(log, i, r) + LiveSize(log[j])
  {
    DeadBytes(log, i, r, NextVisible(log, r, false));
  }
}
