/** (key, value) pairs in flash: getvar and setvar. */
module NvVars {
  import opened Common
  import opened NvLayout
  import opened NvLog
  import opened NvStore
  import opened NvLive
  import opened NvVarMap
  import opened NvDevice
  import opened NvCompact

  /** find_var: the first tuple of a key, and where it is. */
  method FindVar(s: Store, key: seq<uint8>) returns (found: bool, at: Tracker, item: Item, ghost j: nat)
    requires s.Valid()
    ensures found ==>
              && s.low <= j < |s.log| && item == s.log[j] && ItemOk(item) && item.kind == NN_OBJ_TUPLE
              && Holds(Obj(item.kind, item.body), key) && s.IsPlace(at.cPage, at.cOffset, j)
              && Lookup(Live(s.log, s.low, j), key) == None
    ensures !found ==> s.low <= |s.log| && Lookup(LiveObjs(s), key) == None
  {
    s.LowInLog();
    at, j, found := EMPTY_TRACKER, s.low, false;
    NoneLive(s.log, s.low, s.low);
    while true
      invariant s.At(at, j) && Lookup(Live(s.log, s.low, j), key) == None
      decreases |s.log| - j
    {
      var rc;
      PassOver(s.log, s.low, j, key);
      rc, at, item, j := s.Next(at, false, j);
      if rc != Success {
        return;
      }
      if item.kind == NN_OBJ_TUPLE && Holds(Obj(item.kind, item.body), key) {
        return true, at, item, j;
      }
      PassOne(s.log, s.low, j, key);
      j := j + 1;
    }
  }

  lemma PassOver(log: seq<Item>, low: nat, j: nat, key: seq<uint8>)
    requires low <= j <= |log| && Lookup(Live(log, low, j), key) == None
    ensures Lookup(Live(log, low, NextVisible(log, j, false)), key) == None
  {
    var k := NextVisible(log, j, false);
    SteppedOver(log, j);
    LiveSplit(log, low, j, k);
    assert Live(log, low, j) + [] == Live(log, low, j);
  }

  lemma PassOne(log: seq<Item>, low: nat, j: nat, key: seq<uint8>)
    requires low <= j < |log| && Lookup(Live(log, low, j), key) == None
    requires !(IsLive(log[j]) && Holds(Obj(log[j].kind, log[j].body), key))
    ensures Lookup(Live(log, low, j + 1), key) == None
  {
    LiveSplit(log, low, j, j + 1);
    OneLive(log, j, key);
    Concat(Live(log, low, j), Live(log, j, j + 1), key);
  }

  lemma OneLive(log: seq<Item>, j: nat, key: seq<uint8>)
    requires j < |log| && !(IsLive(log[j]) && Holds(Obj(log[j].kind, log[j].body), key))
    ensures Lookup(Live(log, j, j + 1), key) == None
  {
    if IsLive(log[j]) {
      One(Obj(log[j].kind, log[j].body), key);
      assert Live(log, j, j + 1) == [] + [Obj(log[j].kind, log[j].body)];
    }
  }

  /** Saves a tuple. */
  method SaveTuple(s: Store, generation: nat, body: seq<uint8>) returns (rc: Code)
    requires s.Valid() && generation < GENERATIONS && |body| <= MAX_OBJECT_SIZE
    modifies s`headers, s`data, s`index, s`offset, s`log, s`firsts
    ensures rc == if AlignedSize(|body|) < old(s.Free()) then Success else Reboot
    ensures rc == Success ==>
              && s.Valid() && old(s.log) <= s.log && s.low <= |old(s.log)| < |s.log|
              && LiveObjs(s) == old(LiveObjs(s)) + [Obj(NN_OBJ_TUPLE, body)]
              && s.Free() == old(s.Free()) - AlignedSize(|body|)
  {
    s.LowInLog();
    ghost var log, e := s.log, Item(s.To(), NN_OBJ_TUPLE, NN_OBJ_TUPLE, generation, body);
    rc := s.SaveContainer(NN_OBJ_TUPLE, generation, body);
    if rc == Success {
      LiveAppend(log, s.low, e);
    }
  }

  /** Adds a delimiter that is still open. */
  method Open(s: Store) returns (rc: Code, page: nat, del: nat)
    requires s.Valid()
    modifies s`headers, s`data, s`index, s`offset, s`log, s`firsts
    ensures rc == if CONTAINER_SIZE < old(s.Free()) then Success else Reboot
    ensures rc == Success ==>
              && s.Valid() && old(s.log) <= s.log && s.low <= |old(s.log)| && |s.log| == |old(s.log)| + 1
              && s.log[|old(s.log)|].copy == NN_OBJ_TRANSACTION_DEL && s.IsPlace(page, del, |old(s.log)|)
              && LiveObjs(s) == old(LiveObjs(s)) && !IsLive(s.log[|old(s.log)|])
  {
    s.LowInLog();
    page, del := s.headers[s.index].number, s.offset;
    ghost var log := s.log;
    rc := s.AddDelimiter();
    if rc == Success {
      LiveAppend(log, s.low, s.log[|log|]);
    }
  }

  /** Finalizes the last delimiter. */
  method Finish(s: Store, page: nat, del: nat)
    requires s.Valid() && s.low < |s.log| && s.IsPlace(page, del, |s.log| - 1)
    requires s.log[|s.log| - 1].copy == NN_OBJ_TRANSACTION_DEL && !IsLive(s.log[|s.log| - 1])
    modifies s`data, s`log
    ensures s.Valid() && EndsFinal(s) && LiveObjs(s) == old(LiveObjs(s)) && |s.log| == |old(s.log)|
  {
    DeadDelete(s.log, s.low, |s.log| - 1);
    s.Invalidate(page, del, |s.log| - 1);
  }

  /** Saves a tuple, and closes the transaction. */
  method SaveNew(s: Store, generation: nat, body: seq<uint8>) returns (rc: Code)
    requires s.Valid() && generation < GENERATIONS && |body| <= MAX_OBJECT_SIZE
    modifies s`headers, s`data, s`index, s`offset, s`log, s`firsts
    ensures rc == if AlignedSize(|body|) + CONTAINER_SIZE < old(s.Free()) then Success else Reboot
    ensures rc == Success ==>
              && s.Valid() && EndsFinal(s) && s.low <= |s.log|
              && LiveObjs(s) == old(LiveObjs(s)) + [Obj(NN_OBJ_TUPLE, body)]
  {
    rc := SaveTuple(s, generation, body);
    if rc == Success {
      var page, del;
      rc, page, del := Open(s);
      if rc == Success {
        Finish(s, page, del);
      }
    }
  }

  /** Deletes a live object. */
  method DeleteAt(s: Store, at: Tracker, ghost j: nat)
    requires s.Valid() && s.low <= j < |s.log| && IsLive(s.log[j]) && s.IsPlace(at.cPage, at.cOffset, j)
    modifies s`data, s`log
    ensures s.Valid() && s.log == old(s.log)[j := Deleted(old(s.log)[j])]
    ensures LiveObjs(s) == Live(old(s.log), s.low, j) + Live(old(s.log), j + 1, |old(s.log)|)
    ensures old(LiveObjs(s)) == Live(old(s.log), s.low, j) + [Obj(old(s.log)[j].kind, old(s.log)[j].body)]
                                + Live(old(s.log), j + 1, |old(s.log)|)
    ensures old(EndsFinal(s)) ==> EndsFinal(s)
  {
    LiveDelete(s.log, s.low, j);
    s.Invalidate(at.cPage, at.cOffset, j);
  }

  /** Saves the new instance of a tuple and a delimiter, deletes the old one, and closes the transaction. */
  method SaveInstead(s: Store, at: Tracker, generation: nat, body: seq<uint8>, ghost j: nat) returns (rc: Code)
    requires s.Valid() && generation < GENERATIONS && |body| <= MAX_OBJECT_SIZE
    requires s.low <= j < |s.log| && IsLive(s.log[j]) && s.IsPlace(at.cPage, at.cOffset, j)
    modifies s`headers, s`data, s`index, s`offset, s`log, s`firsts
    ensures rc == if AlignedSize(|body|) + CONTAINER_SIZE < old(s.Free()) then Success else Reboot
    ensures rc == Success ==>
              && s.Valid() && EndsFinal(s) && s.low <= |s.log|
              && LiveObjs(s) == Live(old(s.log), s.low, j) + Live(old(s.log), j + 1, |old(s.log)|)
                  + [Obj(NN_OBJ_TUPLE, body)]
  {
    ghost var log := s.log;
    var page, del;
    rc, page, del := SaveOpen(s, generation, body);
    if rc == Success {
      Replaced(log, s.log, s.low, j, Obj(NN_OBJ_TUPLE, body));
      assert s.log[j] == log[j];
      DeleteAt(s, at, j);
      Finish(s, page, del);
    }
  }

  /** Saves a tuple, and leaves the transaction open. */
  method SaveOpen(s: Store, generation: nat, body: seq<uint8>) returns (rc: Code, page: nat, del: nat)
    requires s.Valid() && generation < GENERATIONS && |body| <= MAX_OBJECT_SIZE
    modifies s`headers, s`data, s`index, s`offset, s`log, s`firsts
    ensures rc == if AlignedSize(|body|) + CONTAINER_SIZE < old(s.Free()) then Success else Reboot
    ensures rc == Success ==>
              && s.Valid() && old(s.log) <= s.log && s.low <= |old(s.log)| < |s.log| - 1
              && s.log[|s.log| - 1].copy == NN_OBJ_TRANSACTION_DEL && s.IsPlace(page, del, |s.log| - 1)
              && LiveObjs(s) == old(LiveObjs(s)) + [Obj(NN_OBJ_TUPLE, body)] && !IsLive(s.log[|s.log| - 1])
  {
    page, del := 0, 0;
    rc := SaveTuple(s, generation, body);
    if rc == Success {
      rc, page, del := Open(s);
    }
  }

  /** What is left without the old instance. */
  lemma Replaced(log: seq<Item>, log': seq<Item>, low: nat, j: nat, o: Obj)
    requires low <= j < |log| && IsLive(log[j]) && log <= log' && Live(log', low, |log'|) == Live(log, low, |log|) + [o]
    ensures Live(log', low, j) + Live(log', j + 1, |log'|) == Live(log, low, j) + Live(log, j + 1, |log|) + [o]
  {
    LiveDelete(log, low, j);
    LiveDelete(log', low, j);
    LivePrefix(log', log, low, j);
    Cancel(Live(log, low, j) + [Obj(log[j].kind, log[j].body)], Live(log', j + 1, |log'|),
           Live(log, j + 1, |log|) + [o]);
  }

  lemma Cancel(a: seq<Obj>, b: seq<Obj>, c: seq<Obj>)
    requires a + b == a + c
    ensures b == c
  {
    assert (a + b)[|a|..] == b && (a + c)[|a|..] == c;
  }

  /** The space counted at startup, by the loop of retrieve_nvmem_contents. */
  method CountVars(s: Store) returns (total: nat)
    requires s.Valid() && VarsOk(LiveObjs(s))
    ensures total == VarSpace(LiveObjs(s))
  {
    s.LowInLog();
    var at := EMPTY_TRACKER;
    ghost var j := s.low;
    total := 0;
    var more := true;
    while more
      invariant if more then s.At(at, j) && total == VarSpace(Live(s.log, s.low, j)) else total == VarSpace(LiveObjs(s))
      decreases |s.log| - j, more
    {
      more, at, total, j := CountOn(s, at, total, j);
    }
  }

  /** The space a container takes of that for variables. */
  function SpaceIn(e: Item): nat {
    if e.kind == NN_OBJ_TUPLE && |e.body| >= TUPLE_HEADER then e.body[0] as nat + e.body[1] as nat else 0
  }

  /** Reads the next object, and counts its space. */
  method CountOn(s: Store, at: Tracker, total: nat, ghost j: nat)
    returns (more: bool, at': Tracker, total': nat, ghost j': nat)
    requires s.Valid() && VarsOk(LiveObjs(s)) && s.To() >= 0 && s.At(at, j) && total == VarSpace(Live(s.log, s.low, j))
    ensures if more then j < j' && s.At(at', j') && total' == VarSpace(Live(s.log, s.low, j'))
            else j' == j && total' == VarSpace(LiveObjs(s))
  {
    var rc, item;
    total', j' := total, j;
    CountNext(s.log, s.low, j);
    ghost var k;
    rc, at', item, k := s.Next(at, false, j);
    more := rc == Success;
    if more {
      j' := k + 1;
      total' := total + SpaceIn(item);
    }
  }

  /** The next object adds its space if it is a tuple. */
  lemma CountNext(log: seq<Item>, low: nat, j: nat)
    requires low <= j <= |log| && VarsOk(Live(log, low, |log|))
    ensures var k := NextVisible(log, j, false);
            if k == |log| then VarSpace(Live(log, low, |log|)) == VarSpace(Live(log, low, j))
            else VarSpace(Live(log, low, k + 1)) == VarSpace(Live(log, low, j)) + SpaceIn(log[k])
  {
    SkipSpace(log, low, j);
    if NextVisible(log, j, false) < |log| {
      CountOne(log, low, NextVisible(log, j, false));
    }
  }

  lemma SkipSpace(log: seq<Item>, low: nat, j: nat)
    requires low <= j <= |log|
    ensures VarSpace(Live(log, low, NextVisible(log, j, false))) == VarSpace(Live(log, low, j))
  {
    SteppedOver(log, j);
    LiveSplit(log, low, j, NextVisible(log, j, false));
    assert Live(log, low, j) + [] == Live(log, low, j);
  }

  lemma CountOne(log: seq<Item>, low: nat, j: nat)
    requires low <= j < |log| && VarsOk(Live(log, low, |log|))
    ensures VarSpace(Live(log, low, j + 1)) == VarSpace(Live(log, low, j)) + SpaceIn(log[j])
  {
    var o := Obj(log[j].kind, log[j].body);
    if IsLive(log[j]) {
      LiveDelete(log, low, j);
      assert Live(log, low, |log|)[|Live(log, low, j)|] == o;
      assert Live(log, low, j + 1) == Live(log, low, j) + [o];
      VarSpaceConcat(Live(log, low, j), [o]);
      One(o, []);
    } else {
      assert Live(log, low, j) + [] == Live(log, low, j);
    }
  }

  class Vars {
    const store: Store
    var totalVarSpace: nat

    constructor (store: Store)
      requires store.Valid() && EndsFinal(store) && store.low <= |store.log|
      requires VarsOk(LiveObjs(store)) && VarSpace(LiveObjs(store)) <= MAX_VAR_TOTAL_SPACE
      ensures Valid() && this.store == store
    {
      this.store := store;
      var total := CountVars(store);
      totalVarSpace := total;
    }

    ghost predicate Valid()
      reads this, store
    {
      && store.Valid() && EndsFinal(store) && store.low <= |store.log|
      && VarsOk(LiveObjs(store)) && totalVarSpace == VarSpace(LiveObjs(store)) <= MAX_VAR_TOTAL_SPACE
    }

    /** What a key is set to. */
    ghost function Get(key: seq<uint8>): Option<seq<uint8>>
      reads this, store
    {
      Lookup(LiveObjs(store), key)
    }

    /** Transactions are complete, whatever the keys. */
    ghost predicate Sound()
      reads this, store
    {
      store.Valid() && EndsFinal(store) && store.low <= |store.log|
    }

    /** getvar */
    method GetVar(key: seq<uint8>) returns (val: Option<seq<uint8>>)
      requires Sound()
      ensures val == if key == [] then None else Get(key)
    {
      if key == [] {
        return None;
      }
      var found, at, item, j := FindVar(store, key);
      if found {
        FirstFound(store.log, store.low, j, key);
        return Some(ValueOf(Obj(item.kind, item.body)));
      }
      return None;
    }

    lemma FirstFound(log: seq<Item>, low: nat, j: nat, key: seq<uint8>)
      requires low <= j < |log| && IsLive(log[j]) && Lookup(Live(log, low, j), key) == None
      requires Holds(Obj(log[j].kind, log[j].body), key)
      ensures Lookup(Live(log, low, |log|), key) == Some(ValueOf(Obj(log[j].kind, log[j].body)))
    {
      var o := Obj(log[j].kind, log[j].body);
      LiveDelete(log, low, j);
      Concat(Live(log, low, j) + [o], Live(log, j + 1, |log|), key);
      Concat(Live(log, low, j), [o], key);
      One(o, key);
    }

    /** What a call that changes one key leaves of the others, and of other objects. */
    twostate predicate OnlyKey(new key: seq<uint8>, new val: Option<seq<uint8>>)
      reads this, store
    {
      && Get(key) == val && (forall k :: k != key ==> Get(k) == old(Get(k)))
      && NotTuples(LiveObjs(store)) == old(NotTuples(LiveObjs(store)))
    }

    /** setvar_, for a value that is empty: the tuple of the key is deleted. */
    method Erase(key: seq<uint8>)
      requires Valid()
      modifies this`totalVarSpace, store`data, store`log
      ensures Valid() && OnlyKey(key, None)
    {
      var found, at, item, j := FindVar(store, key);
      if found {
        ghost var o, a, b := Obj(item.kind, item.body), Live(store.log, store.low, j),
            Live(store.log, j + 1, |store.log|);
        DeleteAt(store, at, j);
        Removed(a, o, b);
        totalVarSpace := totalVarSpace - (item.body[0] as nat + item.body[1] as nat);
      }
    }

    /** A new value does not fit. */
    ghost predicate TooMuch(key: seq<uint8>, val: seq<uint8>)
      reads this, store
    {
      match Get(key)
      case None => |key| + |val| + totalVarSpace > MAX_VAR_TOTAL_SPACE
      case Some(was) => was != val && |was| < |val| && totalVarSpace + |val| - |was| > MAX_VAR_TOTAL_SPACE
    }

    /** A key can be set: its sizes are in range, and its space is accounted for. */
    ghost predicate CanSet(key: seq<uint8>, val: seq<uint8>)
      reads this, store
    {
      && Sound() && 0 < |key| < 256 && 0 < |val| < 256 && |key| + |val| <= MAX_VAR_BODY_SPACE
      && SpaceOf(key, Get(key)) <= totalVarSpace
    }

    /** The bytes a tuple and the delimiter after it take. */
    ghost function TupleBytes(key: seq<uint8>, val: seq<uint8>): nat {
      AlignedSize(TUPLE_HEADER + |key| + |val|) + CONTAINER_SIZE
    }

    /** What a set has done: there is a tuple of the key and value, in place of the first of the key. */
    twostate predicate IsSet(new key: seq<uint8>, new val: seq<uint8>, new o: Obj)
      reads this, store
    {
      && Sound() && Holds(o, key) && ValueOf(o) == val && LiveObjs(store) == SetIn(old(LiveObjs(store)), o)
      && totalVarSpace + SpaceOf(key, old(Get(key))) == old(totalVarSpace) + |key| + |val|
    }

    /** setvar_, for a key without a value. */
    method AddVar(key: seq<uint8>, val: seq<uint8>, flags: uint8) returns (rc: Code, ghost o: Obj)
      requires CanSet(key, val) && Get(key) == None
      modifies this`totalVarSpace, store`headers, store`data, store`index, store`offset, store`log, store`firsts
      ensures rc == if old(TooMuch(key, val)) then Overflow
                else if TupleBytes(key, val) < old(store.Free()) then Success else Reboot
      ensures rc == Overflow ==>
                Sound() && LiveObjs(store) == old(LiveObjs(store)) && totalVarSpace == old(totalVarSpace)
      ensures rc == Success ==> IsSet(key, val, o)
    {
      o := Obj(NN_OBJ_TUPLE, TupleBody(key, val, flags));
      if |key| + |val| + totalVarSpace > MAX_VAR_TOTAL_SPACE {
        rc := Overflow;
        return;
      }
      TupleOf(key, val, flags);
      NothingWithout(LiveObjs(store), key);
      rc := SaveNew(store, 0, TupleBody(key, val, flags));
      if rc == Success {
        totalVarSpace := totalVarSpace + |key| + |val|;
      }
    }

    /** The space of a tuple. */
    lemma SpaceHeld(o: Obj, key: seq<uint8>)
      requires Holds(o, key)
      ensures o.body[0] as nat + o.body[1] as nat == |key| + |ValueOf(o)|
    {
    }

    /** setvar_, for a key with another value. */
    method ReplaceVar(key: seq<uint8>, val: seq<uint8>, at: Tracker, item: Item, ghost j: nat)
      returns (rc: Code, ghost o: Obj)
      requires CanSet(key, val) && store.low <= j < |store.log| && item == store.log[j]
      requires item.kind == NN_OBJ_TUPLE && Holds(Obj(item.kind, item.body), key)
      requires store.IsPlace(at.cPage, at.cOffset, j)
      requires Lookup(Live(store.log, store.low, j), key) == None && ValueOf(Obj(item.kind, item.body)) != val
      requires Get(key) == Some(ValueOf(Obj(item.kind, item.body)))
      modifies this`totalVarSpace, store`headers, store`data, store`index, store`offset, store`log, store`firsts
      ensures rc == if old(TooMuch(key, val)) then Overflow
                else if TupleBytes(key, val) < old(store.Free()) then Success else Reboot
      ensures rc == Overflow ==>
                Sound() && LiveObjs(store) == old(LiveObjs(store)) && totalVarSpace == old(totalVarSpace)
      ensures rc == Success ==> IsSet(key, val, o)
    {
      var newSpace, oldSpace := |key| + |val|, item.body[0] as nat + item.body[1] as nat;
      SpaceHeld(Obj(item.kind, item.body), key);
      o := Obj(NN_OBJ_TUPLE, []);
      if oldSpace < newSpace && totalVarSpace + newSpace - oldSpace > MAX_VAR_TOTAL_SPACE {
        rc := Overflow;
        return;
      }
      rc, o := NewInstance(key, val, at, item, j);
      if rc == Success {
        totalVarSpace := totalVarSpace + newSpace - oldSpace;
      }
    }

    method NewInstance(key: seq<uint8>, val: seq<uint8>, at: Tracker, item: Item, ghost j: nat)
      returns (rc: Code, ghost o: Obj)
      requires store.Valid() && |key| < 256 && |val| < 256 && |key| + |val| <= MAX_VAR_BODY_SPACE
      requires store.low <= j < |store.log| && item == store.log[j] && Holds(Obj(item.kind, item.body), key)
      requires store.IsPlace(at.cPage, at.cOffset, j) && Lookup(Live(store.log, store.low, j), key) == None
      modifies store`headers, store`data, store`index, store`offset, store`log, store`firsts
      ensures rc == if TupleBytes(key, val) < old(store.Free()) then Success else Reboot
      ensures rc == Success ==>
                Sound() && Holds(o, key) && ValueOf(o) == val && LiveObjs(store) == SetIn(old(LiveObjs(store)), o)
    {
      var body := TupleBody(key, val, item.body[2]);
      o := Obj(NN_OBJ_TUPLE, body);
      TupleOf(key, val, item.body[2]);
      InPlaceOf(store.log, store.low, j, o);
      rc := SaveInstead(store, at, (item.generation + 1) % GENERATIONS, body, j);
    }

    /** A new instance instead of the first tuple of a key. */
    lemma InPlaceOf(log: seq<Item>, low: nat, j: nat, o: Obj)
      requires low <= j < |log| && IsLive(log[j]) && Holds(Obj(log[j].kind, log[j].body), KeyOf(o))
      requires Lookup(Live(log, low, j), KeyOf(o)) == None
      ensures Live(log, low, j) + Live(log, j + 1, |log|) + [o] == SetIn(Live(log, low, |log|), o)
    {
      LiveDelete(log, low, j);
      WithoutOne(Live(log, low, j), Obj(log[j].kind, log[j].body), Live(log, j + 1, |log|), KeyOf(o));
    }

    /** setvar_, once there is room to write: sets a key to a value that is not empty. */
    method SetTo(key: seq<uint8>, val: seq<uint8>, flags: uint8) returns (rc: Code, ghost o: Obj)
      requires CanSet(key, val)
      modifies this`totalVarSpace, store`headers, store`data, store`index, store`offset, store`log, store`firsts
      ensures rc == if old(Get(key)) == Some(val) then Success
                    else if old(TooMuch(key, val)) then Overflow
                    else if TupleBytes(key, val) < old(store.Free()) then Success else Reboot
      ensures rc == Overflow || old(Get(key)) == Some(val) ==>
                Sound() && LiveObjs(store) == old(LiveObjs(store)) && totalVarSpace == old(totalVarSpace)
      ensures rc == Success && old(Get(key)) != Some(val) ==> IsSet(key, val, o)
    {
      var found, at, item, j := FindVar(store, key);
      if !found {
        rc, o := AddVar(key, val, flags);
        return;
      }
      FirstFound(store.log, store.low, j, key);
      o := Obj(item.kind, item.body);
      if ValueOf(Obj(item.kind, item.body)) == val {
        rc := Success;
        return;
      }
      rc, o := ReplaceVar(key, val, at, item, j);
    }

    // ----- what setvar does to the map

    /** The live objects a set starts from. */
    ghost function Base(): seq<Obj>
      requires Sound()
      reads this, store
    {
      if CompactionNeeded(store) then LiveCompacted(store) else LiveObjs(store)
    }

    /** The compaction of a set would write each object once. */
    ghost predicate BaseOnce()
      requires Sound()
      reads this, store
    {
      CompactionNeeded(store) ==> WritesOnce(store)
    }

    /** The compaction of a set would write the tuple of a key twice: compaction is needed, there is no free
        page, and the tuple is the first object on the last page, after a deleted one. */
    ghost predicate Doubled(key: seq<uint8>)
      requires Sound()
      reads this, store
    {
      && !BaseOnce() && NextVisible(store.log, LastStart(store), false) < |store.log|
      && var e := store.log[NextVisible(store.log, LastStart(store), false)]; Holds(Obj(e.kind, e.body), key)
    }

    /** Compaction changes the value of no key, and leaves a key with one tuple unless it was doubled. */
    lemma BaseIs(key: seq<uint8>)
      requires Valid()
      ensures Lookup(Base(), key) == Get(key)
      ensures Lookup(Without(Base(), key), key) == if Doubled(key) then Get(key) else None
      ensures Doubled(key) ==> Get(key) != None
      ensures BaseOnce() ==> VarsOk(Base()) && VarSpace(Base()) == totalVarSpace
    {
      var log, low, f := store.log, store.low, LastStart(store);
      if CompactionNeeded(store) && !FreshPage(store) && low < |log| {
        StopWithin(log, low, f);
        BeforeStop(log, low, f);
        OnLastPage(log, low, f, key);
        Turned(log, low, f, key);
      } else {
        WithoutUnique(LiveObjs(store), key);
      }
    }

    /** Compaction turns the live objects around, and may leave one of them twice. */
    lemma Turned(log: seq<Item>, low: nat, f: nat, key: seq<uint8>)
      requires low <= f <= |log| && StopAt(log, low, f) <= |log| && VarsOk(Live(log, low, |log|))
      ensures f <= StopAt(log, low, f)
      ensures Lookup(CompactedLog(log, low, f), key) == Lookup(Live(log, low, |log|), key)
      ensures var c := Live(log, f, StopAt(log, low, f));
              && Lookup(Without(CompactedLog(log, low, f), key), key) == Lookup(c, key)
              && (Lookup(c, key) != None ==> Lookup(c, key) == Lookup(Live(log, low, |log|), key))
              && (c == [] ==> VarsOk(CompactedLog(log, low, f))
                              && VarSpace(CompactedLog(log, low, f)) == VarSpace(Live(log, low, |log|)))
    {
      OnLastPage(log, low, f, key);
      LiveSplit(log, low, f, |log|);
      LiveSplit(log, low, f, StopAt(log, low, f));
      var a, b, c := Live(log, low, f), Live(log, f, |log|), Live(log, f, StopAt(log, low, f));
      SameValue(a, b, c, key);
      SecondValue(a, b, c, key);
      PartLookup(b, c, key);
      UniqueParts(a, b, key);
      LookupConcat(a, b, key);
      if c == [] {
        assert a + c == a;
        VarsOkTurned(a, b);
      }
    }

    /** What is written twice is the first object on the last page. */
    lemma OnLastPage(log: seq<Item>, low: nat, f: nat, key: seq<uint8>)
      requires low <= f <= |log| && StopAt(log, low, f) <= |log|
      ensures f <= StopAt(log, low, f) && Live(log, f, StopAt(log, low, f)) <= Live(log, f, |log|)
      ensures var c := Live(log, f, StopAt(log, low, f));
              if c == [] then Lookup(c, key) == None
              else
                && NextVisible(log, f, false) < |log|
                && var e := log[NextVisible(log, f, false)];
                   Lookup(c, key) == if Holds(Obj(e.kind, e.body),
                                              key) then Some(ValueOf(Obj(e.kind, e.body))) else None
    {
      var t, j := StopAt(log, low, f), NextVisible(log, f, false);
      LiveSplit(log, f, t, |log|);
      if t != f {
        SteppedOver(log, f);
        assert Live(log, f, j) == [];
        One(Obj(log[j].kind, log[j].body), key);
      }
    }

    /** Compacts the storage if that is needed. */
    method MakeRoom(scratch: seq<uint8>) returns (rc: Code)
      requires Sound() && |scratch| == CONFIG_FLASH_BANK_SIZE
      modifies store`headers, store`data, store`index, store`offset, store`log, store`low, store`firsts
      ensures rc == Success || rc == Reboot
      ensures rc == Success ==> Sound() && LiveObjs(store) == old(Base())
      ensures rc == Reboot ==>
                old(CompactionNeeded(store)
                    && LiveBytes(store.log, store.low, |store.log|) + CONTAINER_SIZE >= Available(store))
      ensures rc == Success && old(CompactionNeeded(store)) ==>
                store.Free() + old(LiveBytes(store.log, store.low, |store.log|))
                    + CONTAINER_SIZE >= old(Available(store))
      ensures !old(CompactionNeeded(store)) ==> store.Free() == old(store.Free())
    {
      rc := Success;
      if CompactionNeeded(store) {
        rc := Compact(store, scratch);
      }
    }

    /** There may be no room for a set: for what compaction writes, and the tuple, each with a delimiter. */
    ghost predicate NoRoom(key: seq<uint8>, val: seq<uint8>)
      reads this, store
    {
      if CompactionNeeded(store) then
        LiveBytes(store.log, store.low, |store.log|) + CONTAINER_SIZE + TupleBytes(key, val) >= Available(store)
      else TupleBytes(key, val) >= store.Free()
    }

    lemma BaseSame(key: seq<uint8>)
      requires Valid()
      ensures SameValues(Base(), LiveObjs(store)) && SpaceOf(key, Get(key)) <= totalVarSpace
      ensures Lookup(Without(Base(), key), key) == if Doubled(key) then Get(key) else None
      ensures Doubled(key) ==> Get(key) != None
      ensures BaseOnce() ==> VarsOk(Base()) && VarSpace(Base()) == totalVarSpace
    {
      forall k {
        BaseIs(k);
      }
      BaseIs(key);
      WithoutUnique(LiveObjs(store), key);
    }

    /** The value of a key that was set, when the key had a value, and another tuple may remain. */
    function ValueAfter(was: Option<seq<uint8>>, val: seq<uint8>, rest: Option<seq<uint8>>): Option<seq<uint8>> {
      if was != Some(val) && rest.Some? then rest else Some(val)
    }

    /** setvar_ for a value that is not empty, after the compaction. */
    method SetFrom(key: seq<uint8>, val: seq<uint8>, flags: uint8, ghost objs: seq<Obj>,
                   ghost base: seq<Obj>) returns (rc: Code)
      requires CanSet(key, val) && LiveObjs(store) == base && SameValues(base, objs)
      requires totalVarSpace == VarSpace(objs) <= MAX_VAR_TOTAL_SPACE
      modifies this`totalVarSpace, store`headers, store`data, store`index, store`offset, store`log, store`firsts
      ensures rc == if old(Get(key)) == Some(val) then Success
                    else if old(TooMuch(key, val)) then Overflow
                    else if TupleBytes(key, val) < old(store.Free()) then Success else Reboot
      ensures rc != Reboot ==> Sound() && NotTuples(LiveObjs(store)) == NotTuples(base)
      ensures rc == Overflow ==> LiveObjs(store) == base && totalVarSpace == old(totalVarSpace)
      ensures rc == Success ==>
                && SameBut(LiveObjs(store), objs, key)
                && Get(key) == ValueAfter(Lookup(objs, key), val, Lookup(Without(base, key), key))
      ensures rc == Success && VarsOk(base) && VarSpace(base) == old(totalVarSpace) ==> Valid()
    {
      ghost var o;
      rc, o := SetTo(key, val, flags);
      if rc == Success {
        SetEffect(objs, base, key, val, o, LiveObjs(store));
      }
    }

    /** setvar_ for a value that is not empty. */
    method Assign(key: seq<uint8>, val: seq<uint8>, flags: uint8, scratch: seq<uint8>) returns (rc: Code)
      requires Valid() && 0 < |key| < 256 && 0 < |val| < 256 && |key| + |val| <= MAX_VAR_BODY_SPACE
      requires |scratch| == CONFIG_FLASH_BANK_SIZE
      modifies this`totalVarSpace, store`headers, store`data, store`index, store`offset, store`log, store`low,
               store`firsts
      ensures rc == Success || (rc == Overflow && old(TooMuch(key, val))) || (rc == Reboot && old(NoRoom(key, val)))
      ensures rc == Overflow ==> Sound() && SameValues(LiveObjs(store), old(LiveObjs(store)))
      ensures rc == Success ==>
                !old(TooMuch(key, val)) && Sound() && SameBut(LiveObjs(store), old(LiveObjs(store)), key)
      ensures rc == Success ==> Get(key) == if old(Doubled(key)) then old(Get(key)) else Some(val)
      ensures rc != Reboot && old(BaseOnce()) ==> Valid()
      ensures rc != Reboot ==> NotTuples(LiveObjs(store)) == old(NotTuples(Base()))
    {
      BaseSame(key);
      ghost var objs, base := LiveObjs(store), Base();
      ghost var was, doubled := Get(key), Doubled(key);
      rc := MakeRoom(scratch);
      if rc == Success {
        rc := SetFrom(key, val, flags, objs, base);
      }
    }

    /** setvar_.  An empty value deletes the key. */
    method SetVar(key: seq<uint8>, val: seq<uint8>, flags: uint8, scratch: seq<uint8>) returns (rc: Code)
      requires Valid() && |key| < 256 && |val| < 256 && |scratch| == CONFIG_FLASH_BANK_SIZE
      modifies this`totalVarSpace, store`headers, store`data, store`index, store`offset, store`log, store`low,
               store`firsts
      ensures rc == Success || rc == Invalid || rc == Overflow || (rc == Reboot && val != [] && old(NoRoom(key, val)))
      ensures rc == Invalid <==> key == [] || |key| + |val| > MAX_VAR_BODY_SPACE
      ensures rc == Invalid ==> Valid() && OnlyKey(key, old(Get(key)))
      ensures rc == Success && val == [] ==> Valid() && OnlyKey(key, None)
      ensures rc == Overflow ==>
                val != [] && old(TooMuch(key, val)) && Sound() && SameValues(LiveObjs(store), old(LiveObjs(store)))
      ensures rc == Success && val != [] ==>
                !old(TooMuch(key, val)) && Sound() && SameBut(LiveObjs(store), old(LiveObjs(store)), key)
      // A set takes effect, and keys stay unique, unless the compaction before it has doubled a tuple.
      ensures rc == Success && val != [] ==> Get(key) == if old(Doubled(key)) then old(Get(key)) else Some(val)
      ensures (rc == Success || rc == Overflow) && old(BaseOnce()) ==> Valid()
      ensures (rc == Success || rc == Overflow) && val != [] ==> NotTuples(LiveObjs(store)) == old(NotTuples(Base()))
    {
      if key == [] || |key| + |val| > MAX_VAR_BODY_SPACE {
        return Invalid;
      }
      if val == [] {
        Erase(key);
        return Success;
      }
      rc := Assign(key, val, flags, scratch);
    }

    /** What a set leaves, when it starts from objects in another order, or with one of them twice. */
    lemma SetEffect(objs: seq<Obj>, base: seq<Obj>, key: seq<uint8>, val: seq<uint8>, o: Obj, after: seq<Obj>)
      requires SameValues(base, objs)
      requires if Lookup(objs, key) == Some(val) then after == base
                else Holds(o, key) && ValueOf(o) == val && after == SetIn(base, o)
      ensures SameBut(after, objs, key)
      ensures Lookup(after, key) == ValueAfter(Lookup(objs, key), val, Lookup(Without(base, key), key))
      ensures NotTuples(after) == NotTuples(base)
      ensures VarsOk(base) ==>
                && VarsOk(after)
                && VarSpace(after) + SpaceOf(key, Lookup(objs, key)) == VarSpace(base) + |key| + |val|
    {
      if Lookup(objs, key) != Some(val) {
        forall k
          ensures k != key ==> Lookup(after, k) == Lookup(objs, k)
        {
          SetInIs(base, o, k);
        }
        SetInIs(base, o, key);
        if VarsOk(base) {
          SetInUnique(base, o);
        }
      }
    }
  }
}
