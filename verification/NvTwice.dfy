/** What goes wrong when compaction cannot start on an empty page: an example. */
module NvTwice {
  import opened Common
  import opened NvLayout
  import opened NvLog
  import opened NvStore
  import opened NvLive
  import opened NvVarMap
  import opened NvDevice
  import opened NvCompact
  import opened NvVars

  /** After an object that was deleted there is one with a tuple, and the delimiter. */
  ghost predicate Example(log: seq<Item>, key: seq<uint8>, val: seq<uint8>) {
    && |log| == 3 && !Visible(log[0], false) && IsFinalized(log[2]) && !IsLive(log[2])
    && log[1].kind == NN_OBJ_TUPLE && Holds(Obj(NN_OBJ_TUPLE, log[1].body), key)
    && ValueOf(Obj(NN_OBJ_TUPLE, log[1].body)) == val
  }

  /** Compaction leaves the tuple twice if the last page starts with it. */
  lemma LeftTwice(log: seq<Item>, key: seq<uint8>, val: seq<uint8>)
    requires Example(log, key, val)
    ensures var o := Obj(NN_OBJ_TUPLE, log[1].body);
            && Live(log, 0, 3) == [o] && StopAt(log, 0, 1) == 2 && CompactedLog(log, 0, 1) == [o, o]
            && LiveBytes(log, 0, 3) == AlignedSize(|o.body|)
  {
    var o := Obj(NN_OBJ_TUPLE, log[1].body);
    assert Live(log, 0, 1) == [] && Live(log, 0, 2) == [o] && Live(log, 1, 1) == [] && Live(log, 1, 2) == [o];
    assert LiveBytes(log, 0, 1) == 0 && LiveBytes(log, 0, 2) == AlignedSize(|o.body|);
  }

  lemma OneTuple(o: Obj, key: seq<uint8>)
    requires Holds(o, key)
    ensures VarsOk([o]) && VarSpace([o]) == |key| + |ValueOf(o)| && Lookup([o], key) == Some(ValueOf(o))
  {
    One(o, key);
  }

  /** Two pages, the first of which is full with an evictable object that was deleted. */
  method FullPage(coder: Coder, padding: nat -> seq<uint8>) returns (s: Store)
    requires CoderOk(coder) && forall p :: |padding(p)| == 3
    ensures fresh(s) && s.Valid() && s.low == 0 && |s.log| == 1 && !Visible(s.log[0], false) && s.log[0].pos == 0
    ensures s.pageCount == 2 && |s.headers| == 2 && s.headers[0].number == 0 && s.offset == PAGE_HEADER_SIZE
  {
    s := new Store(coder, padding, 2);
    var page, at := s.headers[s.index].number, s.offset;
    s.LowInLog();
    var rc := s.SaveContainer(NN_OBJ_TPM_EVICTABLE, 0, seq(MAX_OBJECT_SIZE, _ => 0));
    s.Invalidate(page, at, 0);
    s.LowInLog();
  }

  /** And a tuple at the start of the second. */
  method Setting(coder: Coder, padding: nat -> seq<uint8>, key: seq<uint8>, val: seq<uint8>,
                 flags: uint8) returns (s: Store)
    requires CoderOk(coder) && forall p :: |padding(p)| == 3
    requires |key| < 256 && |val| < 256 && |key| + |val| <= MAX_VAR_BODY_SPACE
    ensures fresh(s) && s.Valid() && s.low == 0 && Example(s.log, key, val) && LastStart(s) == 1
    ensures s.pageCount == 2 && s.index == 1 && s.offset != PAGE_HEADER_SIZE && s.Free() > 1700
    ensures |s.log[1].body| == TUPLE_HEADER + |key| + |val|
  {
    s := FullPage(coder, padding);
    s.Parts();
    StoreListed(s.coder, s.headers, s.data, s.pageCount, s.offset, s.log, s.low, s.firsts);
    TupleOf(key, val, flags);
    var rc := s.SaveContainer(NN_OBJ_TUPLE, 0, TupleBody(key, val, flags));
    ghost var log := s.log;
    rc := s.AddFinalDelimiter();
    assert s.log[..2] == log;
    SecondPage(s);
  }

  lemma SecondPage(s: Store)
    requires s.Valid() && s.low == 0 && |s.headers| == 2 && s.headers[0].number == 0 && |s.log| == 3
    requires s.log[0].pos == 0 && s.log[1].pos == 2040
    ensures LastStart(s) == 1
  {
    LastFirst(s);
    s.Parts();
    assert PageOk(s.headers, s.firsts, s.log, s.low, s.To(), 1);
    s.Parts();
    ChainedOrder(s.log, s.low, PageStart(s.headers[0]), s.To(), 1, 2);
    ChainedOrder(s.log, s.low, PageStart(s.headers[0]), s.To(), 1, 3);
  }

  /** The key has a value there, its tuple is written twice by the compaction of a set, and there is room. */
  method Prepare(coder: Coder, padding: nat -> seq<uint8>, key: seq<uint8>, val: seq<uint8>, other: seq<uint8>,
                 flags: uint8) returns (vars: Vars)
    requires CoderOk(coder) && forall p :: |padding(p)| == 3
    requires 0 < |key| < 256 && 0 < |val| < 256 && 0 < |other| < 256
    requires |key| + |val| <= MAX_VAR_BODY_SPACE && |key| + |other| <= MAX_VAR_BODY_SPACE
    ensures fresh(vars) && fresh(vars.store) && vars.Valid() && vars.Get(key) == Some(val)
    ensures vars.Doubled(key) && !vars.TooMuch(key, other) && !vars.NoRoom(key, other)
  {
    var s := Setting(coder, padding, key, val, flags);
    LeftTwice(s.log, key, val);
    OneTuple(Obj(NN_OBJ_TUPLE, s.log[1].body), key);
    vars := new Vars(s);
  }

  /** A set of a key that is doubled succeeds, and the key keeps the value it had. */
  method SetDoubled(vars: Vars, key: seq<uint8>, other: seq<uint8>, flags: uint8, scratch: seq<uint8>)
    returns (rc: Code, got: Option<seq<uint8>>)
    requires vars.Valid() && 0 < |key| < 256 && 0 < |other| < 256 && |key| + |other| <= MAX_VAR_BODY_SPACE
    requires |scratch| == CONFIG_FLASH_BANK_SIZE
    requires vars.Doubled(key) && !vars.TooMuch(key, other) && !vars.NoRoom(key, other)
    modifies vars, vars.store
    ensures rc == Success && got == old(vars.Get(key))
  {
    rc := vars.SetVar(key, other, flags, scratch);
    got := vars.GetVar(key);
  }

  /** A tuple is set to another value on the last of two pages: the call succeeds, and the key keeps the
      value it had. */
  method SetIgnored(coder: Coder, padding: nat -> seq<uint8>, key: seq<uint8>, val: seq<uint8>, other: seq<uint8>,
                    flags: uint8, scratch: seq<uint8>)
    returns (rc: Code, got: Option<seq<uint8>>)
    requires CoderOk(coder) && (forall p :: |padding(p)| == 3) && |scratch| == CONFIG_FLASH_BANK_SIZE
    requires 0 < |key| < 256 && 0 < |val| < 256 && 0 < |other| < 256
    requires |key| + |val| <= MAX_VAR_BODY_SPACE && |key| + |other| <= MAX_VAR_BODY_SPACE
    ensures rc == Success && got == Some(val)
  {
    var vars := Prepare(coder, padding, key, val, other, flags);
    rc, got := SetDoubled(vars, key, other, flags, scratch);
  }
}
