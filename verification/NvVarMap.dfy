/** The (key, value) pairs among the live objects, as a map. */
module NvVarMap {
  import opened Common
  import opened NvLayout
  import opened NvLive

  const MAX_VAR_TOTAL_SPACE: nat := 1000
  const MAX_VAR_BODY_SPACE: nat := 300

  /** struct tuple: the lengths of key and value, and flags. */
  const TUPLE_HEADER: nat := 3

  /** A tuple whose sizes are consistent. */
  predicate TupleOk(o: Obj) {
    && o.kind == NN_OBJ_TUPLE && |o.body| >= TUPLE_HEADER
    && |o.body| == TUPLE_HEADER + o.body[0] as nat + o.body[1] as nat
  }

  function KeyOf(o: Obj): seq<uint8> {
    if TupleOk(o) then o.body[TUPLE_HEADER..TUPLE_HEADER + o.body[0] as nat] else []
  }

  function ValueOf(o: Obj): seq<uint8> {
    if TupleOk(o) then o.body[TUPLE_HEADER + o.body[0] as nat..] else []
  }

  function TupleBody(key: seq<uint8>, val: seq<uint8>, flags: uint8): (body: seq<uint8>)
    requires |key| < 256 && |val| < 256
    ensures |body| == TUPLE_HEADER + |key| + |val|
  {
    [|key| as uint8, |val| as uint8, flags] + key + val
  }

  lemma TupleOf(key: seq<uint8>, val: seq<uint8>, flags: uint8)
    requires |key| < 256 && |val| < 256
    ensures var o := Obj(NN_OBJ_TUPLE, TupleBody(key, val, flags));
            TupleOk(o) && KeyOf(o) == key && ValueOf(o) == val
  {
    var b := TupleBody(key, val, flags);
    assert b[TUPLE_HEADER..TUPLE_HEADER + |key|] == key && b[TUPLE_HEADER + |key|..] == val;
  }

  predicate Holds(o: Obj, key: seq<uint8>) { TupleOk(o) && KeyOf(o) == key }

  /** The value of a key: that of the first tuple that holds it. */
  ghost function Lookup(objs: seq<Obj>, key: seq<uint8>): Option<seq<uint8>> {
    if objs == [] then None
    else if Holds(objs[0], key) then Some(ValueOf(objs[0]))
    else Lookup(objs[1..], key)
  }

  /** Keys have the same values, or all keys but one. */
  ghost predicate SameValues(a: seq<Obj>, b: seq<Obj>) {
    forall k {:trigger Lookup(a, k)} :: Lookup(a, k) == Lookup(b, k)
  }

  ghost predicate SameBut(a: seq<Obj>, b: seq<Obj>, key: seq<uint8>) {
    forall k {:trigger Lookup(a, k)} :: k != key ==> Lookup(a, k) == Lookup(b, k)
  }

  /** The space the keys and values take. */
  ghost function VarSpace(objs: seq<Obj>): nat {
    if objs == [] then 0
    else (if TupleOk(objs[0]) then |KeyOf(objs[0])| + |ValueOf(objs[0])| else 0) + VarSpace(objs[1..])
  }

  /** All tuples are consistent, and no two hold the same key. */
  ghost predicate VarsOk(objs: seq<Obj>) {
    && (forall o {:trigger TupleOk(o)} :: o in objs && o.kind == NN_OBJ_TUPLE ==> TupleOk(o))
    && (forall i, j {:trigger KeyOf(objs[i]), KeyOf(objs[j])} ::
          0 <= i < j < |objs| && TupleOk(objs[i]) && TupleOk(objs[j]) ==> KeyOf(objs[i]) != KeyOf(objs[j]))
  }

  /** The objects that are not tuples, in order. */
  ghost function NotTuples(objs: seq<Obj>): seq<Obj> {
    if objs == [] then []
    else (if objs[0].kind == NN_OBJ_TUPLE then [] else [objs[0]]) + NotTuples(objs[1..])
  }

  lemma Concat(a: seq<Obj>, b: seq<Obj>, key: seq<uint8>)
    ensures Lookup(a + b, key) == if Lookup(a, key).Some? then Lookup(a, key) else Lookup(b, key)
    ensures VarSpace(a + b) == VarSpace(a) + VarSpace(b)
    ensures NotTuples(a + b) == NotTuples(a) + NotTuples(b)
  {
    LookupConcat(a, b, key);
    VarSpaceConcat(a, b);
    NotTuplesConcat(a, b);
  }

  lemma {:induction false} LookupConcat(a: seq<Obj>, b: seq<Obj>, key: seq<uint8>)
    ensures Lookup(a + b, key) == if Lookup(a, key).Some? then Lookup(a, key) else Lookup(b, key)
  {
    if a == [] {
      assert a + b == b;
    } else {
      assert (a + b)[1..] == a[1..] + b;
      LookupConcat(a[1..], b, key);
    }
  }

  lemma {:induction false} VarSpaceConcat(a: seq<Obj>, b: seq<Obj>)
    ensures VarSpace(a + b) == VarSpace(a) + VarSpace(b)
  {
    if a == [] {
      assert a + b == b;
    } else {
      assert (a + b)[1..] == a[1..] + b;
      VarSpaceConcat(a[1..], b);
    }
  }

  lemma {:induction false} NotTuplesConcat(a: seq<Obj>, b: seq<Obj>)
    ensures NotTuples(a + b) == NotTuples(a) + NotTuples(b)
  {
    if a == [] {
      assert a + b == b;
    } else {
      assert (a + b)[1..] == a[1..] + b;
      NotTuplesConcat(a[1..], b);
    }
  }

  lemma One(o: Obj, key: seq<uint8>)
    ensures Lookup([o], key) == if Holds(o, key) then Some(ValueOf(o)) else None
    ensures VarSpace([o]) == if TupleOk(o) then |KeyOf(o)| + |ValueOf(o)| else 0
    ensures NotTuples([o]) == if o.kind == NN_OBJ_TUPLE then [] else [o]
  {
    assert [o][1..] == [];
  }

  lemma {:induction false} NoneHolds(objs: seq<Obj>, key: seq<uint8>)
    ensures Lookup(objs, key).None? <==> forall o <- objs :: !Holds(o, key)
  {
    if objs != [] {
      NoneHolds(objs[1..], key);
      if forall o <- objs :: !Holds(o, key) {
        assert !Holds(objs[0], key);
      } else {
        var o :| o in objs && Holds(o, key);
        assert o == objs[0] || o in objs[1..];
      }
    }
  }

  /** Without its one tuple, a key has no value, and other keys keep theirs. */
  lemma Removed(a: seq<Obj>, o: Obj, b: seq<Obj>)
    requires VarsOk(a + [o] + b) && TupleOk(o)
    ensures VarsOk(a + b) && Lookup(a + b, KeyOf(o)) == None && Lookup(a + [o] + b, KeyOf(o)) == Some(ValueOf(o))
    ensures forall k :: k != KeyOf(o) ==> Lookup(a + b, k) == Lookup(a + [o] + b, k)
    ensures VarSpace(a + [o] + b) == VarSpace(a + b) + |KeyOf(o)| + |ValueOf(o)|
    ensures NotTuples(a + b) == NotTuples(a + [o] + b)
  {
    var all := a + [o] + b;
    assert all[|a|] == o;
    VarsOkWithout(a, o, b);
    OthersDiffer(a, o, b);
    NoneHolds(a + b, KeyOf(o));
    NoneHolds(a, KeyOf(o));
    forall k
      ensures k != KeyOf(o) ==> Lookup(a + b, k) == Lookup(all, k)
      ensures k == KeyOf(o) ==> Lookup(all, k) == Some(ValueOf(o))
    {
      Concat(a + [o], b, k);
      Concat(a, [o], k);
      Concat(a, b, k);
      One(o, k);
    }
    Concat(a + [o], b, []);
    Concat(a, [o], []);
    Concat(a, b, []);
    One(o, []);
  }

  lemma VarsOkWithout(a: seq<Obj>, o: Obj, b: seq<Obj>)
    requires VarsOk(a + [o] + b)
    ensures VarsOk(a + b)
  {
    var all, rest := a + [o] + b, a + b;
    assert forall i :: 0 <= i < |rest| ==> rest[i] == all[if i < |a| then i else i + 1];
  }

  lemma OthersDiffer(a: seq<Obj>, o: Obj, b: seq<Obj>)
    requires VarsOk(a + [o] + b) && TupleOk(o)
    ensures forall p <- a + b :: !Holds(p, KeyOf(o))
    ensures forall p <- a :: !Holds(p, KeyOf(o))
  {
    var all, rest := a + [o] + b, a + b;
    assert all[|a|] == o;
    forall i | 0 <= i < |rest|
      ensures !Holds(rest[i], KeyOf(o))
    {
      var j := if i < |a| then i else i + 1;
      assert rest[i] == all[j];
    }
    forall p | p in a
      ensures !Holds(p, KeyOf(o))
    {
      assert p in rest;
    }
  }

  lemma VarsOkWith(a: seq<Obj>, o: Obj)
    requires VarsOk(a) && TupleOk(o) && forall p <- a :: !Holds(p, KeyOf(o))
    ensures VarsOk(a + [o])
  {
    var all := a + [o];
    forall i, j | 0 <= i < j < |all| && TupleOk(all[i]) && TupleOk(all[j])
      ensures KeyOf(all[i]) != KeyOf(all[j])
    {
      assert all[i] == a[i] && a[i] in a;
    }
  }

  /** A tuple of a new key gives it its value, and other keys keep theirs. */
  lemma Added(a: seq<Obj>, o: Obj)
    requires VarsOk(a) && TupleOk(o) && Lookup(a, KeyOf(o)) == None
    ensures VarsOk(a + [o]) && Lookup(a + [o], KeyOf(o)) == Some(ValueOf(o))
    ensures forall k :: k != KeyOf(o) ==> Lookup(a + [o], k) == Lookup(a, k)
    ensures VarSpace(a + [o]) == VarSpace(a) + |KeyOf(o)| + |ValueOf(o)|
    ensures NotTuples(a + [o]) == NotTuples(a)
  {
    NoneHolds(a, KeyOf(o));
    VarsOkWith(a, o);
    forall k
      ensures k != KeyOf(o) ==> Lookup(a + [o], k) == Lookup(a, k)
      ensures k == KeyOf(o) ==> Lookup(a + [o], k) == Some(ValueOf(o))
    {
      Concat(a, [o], k);
      One(o, k);
    }
    Concat(a, [o], []);
    One(o, []);
  }

  // ----- setting a key

  /** The objects without the first tuple that holds a key. */
  ghost function Without(objs: seq<Obj>, key: seq<uint8>): seq<Obj> {
    if objs == [] then [] else if Holds(objs[0], key) then objs[1..] else [objs[0]] + Without(objs[1..], key)
  }

  /** The objects with a tuple in place of the first one of its key. */
  ghost function SetIn(objs: seq<Obj>, o: Obj): seq<Obj> { Without(objs, KeyOf(o)) + [o] }

  lemma {:induction false} WithoutConcat(a: seq<Obj>, b: seq<Obj>, key: seq<uint8>)
    ensures Without(a + b, key) == if Lookup(a, key).Some? then Without(a, key) + b else a + Without(b, key)
  {
    if a == [] {
      assert a + b == b;
    } else {
      assert (a + b)[1..] == a[1..] + b;
      assert a == [a[0]] + a[1..];
      if !Holds(a[0], key) {
        WithoutConcat(a[1..], b, key);
      }
    }
  }

  lemma WithoutOne(a: seq<Obj>, o: Obj, b: seq<Obj>, key: seq<uint8>)
    requires Lookup(a, key) == None && Holds(o, key)
    ensures Without(a + [o] + b, key) == a + b
  {
    assert a + [o] + b == a + ([o] + b);
    WithoutConcat(a, [o] + b, key);
    assert ([o] + b)[1..] == b;
  }

  /** Where the first tuple of a key is. */
  lemma {:induction false} FirstHolder(objs: seq<Obj>, key: seq<uint8>) returns (i: nat)
    requires Lookup(objs, key).Some?
    ensures i < |objs| && Holds(objs[i], key) && Lookup(objs[..i], key) == None
    ensures objs == objs[..i] + [objs[i]] + objs[i + 1..]
    ensures Lookup(objs, key) == Some(ValueOf(objs[i]))
  {
    if Holds(objs[0], key) {
      i := 0;
    } else {
      i := FirstHolder(objs[1..], key);
      i := i + 1;
      assert objs[..i] == [objs[0]] + objs[1..][..i - 1];
      LookupConcat([objs[0]], objs[1..][..i - 1], key);
      One(objs[0], key);
    }
  }

  lemma {:induction false} NothingWithout(objs: seq<Obj>, key: seq<uint8>)
    requires Lookup(objs, key).None?
    ensures Without(objs, key) == objs
  {
    if objs != [] {
      NothingWithout(objs[1..], key);
      assert objs == [objs[0]] + objs[1..];
    }
  }

  /** Other keys and other objects are not affected. */
  lemma WithoutOthers(objs: seq<Obj>, key: seq<uint8>, k: seq<uint8>)
    ensures k != key ==> Lookup(Without(objs, key), k) == Lookup(objs, k)
    ensures NotTuples(Without(objs, key)) == NotTuples(objs)
  {
    if Lookup(objs, key).None? {
      NothingWithout(objs, key);
    } else {
      var i := FirstHolder(objs, key);
      var a, o, b := objs[..i], objs[i], objs[i + 1..];
      WithoutOne(a, o, b, key);
      Concat(a + [o], b, k);
      Concat(a, [o], k);
      Concat(a, b, k);
      One(o, k);
    }
  }

  /** When no two tuples hold the same key, the key is gone. */
  lemma WithoutUnique(objs: seq<Obj>, key: seq<uint8>)
    requires VarsOk(objs)
    ensures VarsOk(Without(objs, key)) && Lookup(Without(objs, key), key) == None
    ensures VarSpace(objs) == VarSpace(Without(objs, key)) + SpaceOf(key, Lookup(objs, key))
  {
    if Lookup(objs, key).None? {
      NothingWithout(objs, key);
    } else {
      var i := FirstHolder(objs, key);
      WithoutOne(objs[..i], objs[i], objs[i + 1..], key);
      Removed(objs[..i], objs[i], objs[i + 1..]);
    }
  }

  function SpaceOf(key: seq<uint8>, val: Option<seq<uint8>>): nat {
    match val
    case None => 0
    case Some(v) => |key| + |v|
  }

  /** A set changes no other key, and takes effect unless another tuple of the key remains. */
  lemma SetInIs(objs: seq<Obj>, o: Obj, k: seq<uint8>)
    requires TupleOk(o)
    ensures k != KeyOf(o) ==> Lookup(SetIn(objs, o), k) == Lookup(objs, k)
    ensures k == KeyOf(o) ==> var rest := Lookup(Without(objs, k), k);
              Lookup(SetIn(objs, o), k) == if rest.Some? then rest else Some(ValueOf(o))
    ensures NotTuples(SetIn(objs, o)) == NotTuples(objs)
  {
    Concat(Without(objs, KeyOf(o)), [o], k);
    One(o, k);
    WithoutOthers(objs, KeyOf(o), k);
    assert NotTuples(objs) + [] == NotTuples(objs);
  }

  lemma SetInUnique(objs: seq<Obj>, o: Obj)
    requires VarsOk(objs) && TupleOk(o)
    ensures VarsOk(SetIn(objs, o)) && Lookup(SetIn(objs, o), KeyOf(o)) == Some(ValueOf(o))
    ensures VarSpace(SetIn(objs, o)) + SpaceOf(KeyOf(o), Lookup(objs, KeyOf(o)))
              == VarSpace(objs) + |KeyOf(o)| + |ValueOf(o)|
  {
    WithoutUnique(objs, KeyOf(o));
    Added(Without(objs, KeyOf(o)), o);
  }

  // ----- objects in another order, and one twice

  /** Keys are unique in a part of the objects as well, and not in two parts. */
  lemma UniqueParts(a: seq<Obj>, b: seq<Obj>, key: seq<uint8>)
    requires VarsOk(a + b)
    ensures VarsOk(a) && VarsOk(b) && !(Lookup(a, key).Some? && Lookup(b, key).Some?)
  {
    var all := a + b;
    assert forall i :: 0 <= i < |a| ==> all[i] == a[i];
    assert forall i :: 0 <= i < |b| ==> all[|a| + i] == b[i];
    assert VarsOk(b) by {
      forall o | o in b && o.kind == NN_OBJ_TUPLE
        ensures TupleOk(o)
      {
        assert o in all;
      }
    }
    assert VarsOk(a) by {
      forall o | o in a && o.kind == NN_OBJ_TUPLE
        ensures TupleOk(o)
      {
        assert o in all;
      }
    }
    if Lookup(a, key).Some? && Lookup(b, key).Some? {
      var i := FirstHolder(a, key);
      var j := FirstHolder(b, key);
    }
  }

  /** A key has the same value when the objects are in another order and some of them are there again. */
  lemma SameValue(a: seq<Obj>, b: seq<Obj>, c: seq<Obj>, key: seq<uint8>)
    requires VarsOk(a + b) && c <= b
    ensures Lookup(b + (a + c), key) == Lookup(a + b, key)
  {
    UniqueParts(a, b, key);
    PartLookup(b, c, key);
    LookupConcat(b, a + c, key);
    LookupConcat(a, c, key);
    LookupConcat(a, b, key);
  }

  lemma PartLookup(b: seq<Obj>, c: seq<Obj>, key: seq<uint8>)
    requires c <= b
    ensures Lookup(c, key).Some? ==> Lookup(b, key) == Lookup(c, key)
  {
    assert b == c + b[|c|..];
    LookupConcat(c, b[|c|..], key);
  }

  /** Without its first tuple, a key has the value of the one that is there again. */
  lemma SecondValue(a: seq<Obj>, b: seq<Obj>, c: seq<Obj>, key: seq<uint8>)
    requires VarsOk(a + b) && c <= b
    ensures Lookup(Without(b + (a + c), key), key) == Lookup(c, key)
  {
    UniqueParts(a, b, key);
    PartLookup(b, c, key);
    WithoutConcat(b, a + c, key);
    if Lookup(b, key).Some? {
      WithoutUnique(b, key);
      LookupConcat(Without(b, key), a + c, key);
      LookupConcat(a, c, key);
    } else {
      SecondInFirst(a, c, key);
      LookupConcat(b, Without(a + c, key), key);
    }
  }

  lemma SecondInFirst(a: seq<Obj>, c: seq<Obj>, key: seq<uint8>)
    requires VarsOk(a) && Lookup(c, key) == None
    ensures Lookup(Without(a + c, key), key) == None
  {
    WithoutConcat(a, c, key);
    WithoutUnique(a, key);
    NothingWithout(c, key);
    LookupConcat(Without(a, key), c, key);
    LookupConcat(a, c, key);
  }

  lemma VarsOkTurned(a: seq<Obj>, b: seq<Obj>)
    requires VarsOk(a + b)
    ensures VarsOk(b + a) && VarSpace(b + a) == VarSpace(a + b)
  {
    VarSpaceConcat(a, b);
    VarSpaceConcat(b, a);
    var all, turned := a + b, b + a;
    assert forall i :: 0 <= i < |turned| ==> turned[i] == all[if i < |b| then |a| + i else i - |b|];
    forall o | o in turned && o.kind == NN_OBJ_TUPLE
      ensures TupleOk(o)
    {
      assert o in all;
    }
  }
}
