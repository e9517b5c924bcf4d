/** What a save makes of the objects in flash, given what the cache holds. */
module NvPlan {
  import opened Common
  import opened NvLayout
  import opened NvLog
  import opened NvLive

  /** The NVMEM cache: the evictable objects, the bytes of each reserved object as it is marshaled, and
      the PCRs, which are reserved objects with numbers from pcrBase on. */
  datatype Cache = Cache(objects: seq<seq<uint8>>, reserved: map<uint8, seq<uint8>>, pcrs: seq<seq<uint8>>,
                         pcrBase: nat)

  const HANDLE_SIZE: nat := 4
  const MAX_STORED_EVICTABLE_OBJECTS: nat := 20

  /** The handle an evictable object starts with. */
  function HandleOf(body: seq<uint8>): seq<uint8> { if |body| >= HANDLE_SIZE then body[..HANDLE_SIZE] else body }

  /** is_empty */
  predicate IsEmpty(b: seq<uint8>) { AllAre(b, |b|, 255) || AllAre(b, |b|, 0) }

  /** The first n bytes have a value. */
  predicate AllAre(b: seq<uint8>, n: nat, v: uint8)
    requires n <= |b|
  {
    n == 0 || (b[n - 1] == v && AllAre(b, n - 1, v))
  }

  predicate Fits(body: seq<uint8>) { |body| <= MAX_OBJECT_SIZE }

  ghost predicate CacheOk(cache: Cache) {
    && |cache.objects| <= MAX_STORED_EVICTABLE_OBJECTS && cache.pcrBase + |cache.pcrs| <= 256
    && (forall o {:trigger Fits(o)} :: o in cache.objects ==> HANDLE_SIZE <= |o| && Fits(o))
    && (forall id {:trigger cache.reserved[id]} :: id in cache.reserved ==>
          |cache.reserved[id]| < MAX_OBJECT_SIZE && id as nat < cache.pcrBase)
    && (forall i {:trigger cache.pcrs[i]} :: 0 <= i < |cache.pcrs| ==> |cache.pcrs[i]| < MAX_OBJECT_SIZE)
  }

  /** An object in flash has the handle or the number it is known by, and a handle keeps its size. */
  ghost predicate Storable(cache: Cache, o: Obj) {
    && (o.kind == NN_OBJ_TPM_EVICTABLE ==>
          && HANDLE_SIZE <= |o.body|
          && forall c {:trigger HandleOf(c)} :: c in cache.objects && HandleOf(c) == HandleOf(o.body) ==>
              |c| == |o.body|)
    && (o.kind == NN_OBJ_TPM_RESERVED ==> o.body != [])
  }

  /** A reserved object as the cache has it, if it has it. */
  function Fresh(cache: Cache, body: seq<uint8>): seq<uint8> {
    if body == [] then body
    else if body[0] in cache.reserved then [body[0]] + cache.reserved[body[0]]
    else if cache.pcrBase <= body[0] as nat < cache.pcrBase + |cache.pcrs| then
      [body[0]] + cache.pcrs[body[0] as nat - cache.pcrBase]
    else body
  }

  /** What the code finds for a reserved object: its bytes in the cache, nothing, in which case the save is
      refused, or what lies behind the descriptors of the PCRs. */
  datatype Reserved = Found(bytes: seq<uint8>) | Refused | Outside

  /** A PCR has this number and this size. */
  predicate IsPcr(cache: Cache, body: seq<uint8>)
    requires body != []
  {
    var i := body[0] as int - cache.pcrBase;
    0 <= i < |cache.pcrs| && |cache.pcrs[i]| == |body| - 1
  }

  /** The bytes of a reserved object in the cache: that of NV_STATE_CLEAR and the like, or a PCR.  Every number
      that is not known is refused but one: the number after that of the last PCR. */
  function FindReserved(cache: Cache, body: seq<uint8>): (r: Reserved)
    requires body != []
    ensures r.Found? ==> [body[0]] + r.bytes == Fresh(cache, body)
    ensures r.Found? <==> body[0] in cache.reserved || IsPcr(cache, body)
    ensures !r.Found? ==> (r == Refused <==> body[0] as nat != cache.pcrBase + |cache.pcrs|)
  {
    var i := body[0] as int - cache.pcrBase;
    if body[0] in cache.reserved then Found(cache.reserved[body[0]])
    else if i < 0 || i > |cache.pcrs| then Refused
    else if i == |cache.pcrs| then Outside
    else if |cache.pcrs[i]| != |body| - 1 then Refused
    else Found(cache.pcrs[i])
  }

  predicate Finds(cache: Cache, o: Obj, r: Reserved) {
    o.kind == NN_OBJ_TPM_RESERVED && o.body != [] && FindReserved(cache, o.body) == r
  }

  /** This is found for one of some objects. */
  ghost predicate Occurs(cache: Cache, objs: seq<Obj>, r: Reserved) {
    exists k {:trigger objs[k]} :: 0 <= k < |objs| && Finds(cache, objs[k], r)
  }

  lemma OccursNext(cache: Cache, objs: seq<Obj>, o: Obj, r: Reserved)
    ensures Occurs(cache, objs + [o], r) <==> Occurs(cache, objs, r) || Finds(cache, o, r)
  {
    var all := objs + [o];
    if Occurs(cache, objs, r) {
      var k :| 0 <= k < |objs| && Finds(cache, objs[k], r);
      assert all[k] == objs[k];
    }
    assert all[|objs|] == o;
  }

  // ----- what is done about each object

  datatype Action = Keep | Drop | Replace(body: seq<uint8>)

  /** The first of some objects with a handle, or their number. */
  function IndexOf(rest: seq<seq<uint8>>, handle: seq<uint8>): (i: nat)
    ensures i <= |rest| && (i < |rest| ==> HandleOf(rest[i]) == handle)
    ensures forall k :: 0 <= k < i ==> HandleOf(rest[k]) != handle
  {
    if rest == [] || HandleOf(rest[0]) == handle then 0 else 1 + IndexOf(rest[1..], handle)
  }

  /** Objects stay when the cache has them as they are.  An evictable object is looked for among the cached
      ones that have not been met yet. */
  function ActionOn(cache: Cache, rest: seq<seq<uint8>>, o: Obj): Action {
    if o.kind == NN_OBJ_TPM_EVICTABLE then
      var i := IndexOf(rest, HandleOf(o.body));
      if i == |rest| then Drop else if rest[i] == o.body then Keep else Replace(rest[i])
    else if o.kind == NN_OBJ_TPM_RESERVED && Fresh(cache, o.body) != o.body then Replace(Fresh(cache, o.body))
    else Keep
  }

  /** The cached objects that have not been met: the last one takes the place of the one that is. */
  function RestAfter(rest: seq<seq<uint8>>, o: Obj): seq<seq<uint8>> {
    var i := IndexOf(rest, HandleOf(o.body));
    if o.kind != NN_OBJ_TPM_EVICTABLE || i == |rest| then rest else rest[i := rest[|rest| - 1]][..|rest| - 1]
  }

  function StayOf(a: Action, o: Obj): seq<Obj> { if a == Keep then [o] else [] }

  function UpdateOf(a: Action, o: Obj): seq<Obj> { if a.Replace? then [Obj(o.kind, a.body)] else [] }

  /** What is done about some objects: the cached objects that are left, the objects that stay, the new
      instances of those that have changed, how many are deleted, and the bytes the new instances take. */
  datatype Plan = Plan(rest: seq<seq<uint8>>, stays: seq<Obj>, updates: seq<Obj>, outdated: nat, bytes: nat)

  function Next(cache: Cache, p: Plan, o: Obj): Plan {
    var a := ActionOn(cache, p.rest, o);
    Plan(RestAfter(p.rest, o), p.stays + StayOf(a, o), p.updates + UpdateOf(a, o),
         p.outdated + (if a == Keep then 0 else 1), p.bytes + BytesOf(a))
  }

  function BytesOf(a: Action): nat { if a.Replace? then AlignedSize(|a.body|) else 0 }

  ghost function PlanOf(cache: Cache, objs: seq<Obj>): Plan {
    if objs == [] then Plan(cache.objects, [], [], 0, 0)
    else Next(cache, PlanOf(cache, objs[..|objs| - 1]), objs[|objs| - 1])
  }

  lemma PlanNext(cache: Cache, objs: seq<Obj>, o: Obj)
    ensures PlanOf(cache, objs + [o]) == Next(cache, PlanOf(cache, objs), o)
  {
    assert (objs + [o])[..|objs|] == objs;
  }

  /** A plan needs no less than another. */
  ghost predicate NoLess(p: Plan, q: Plan) {
    p.bytes <= q.bytes && p.outdated <= q.outdated && p.updates <= q.updates
  }

  /** More objects need no less. */
  lemma {:induction false} PlanGrows(cache: Cache, objs: seq<Obj>, more: seq<Obj>)
    ensures NoLess(PlanOf(cache, objs), PlanOf(cache, objs + more))
  {
    if more == [] {
      assert objs + more == objs;
    } else {
      var init, o := more[..|more| - 1], more[|more| - 1];
      PlanGrows(cache, objs, init);
      Unsnoc(objs, more);
      PlanNext(cache, objs + init, o);
    }
  }

  /** The evictable objects with the first n of some bodies. */
  ghost function Evictables(rest: seq<seq<uint8>>, n: nat): seq<Obj>
    requires n <= |rest|
  {
    if n == 0 then [] else Evictables(rest, n - 1) + [Obj(NN_OBJ_TPM_EVICTABLE, rest[n - 1])]
  }

  lemma {:induction false} EvictablesPrefix(a: seq<Obj>, rest: seq<seq<uint8>>, n: nat, m: nat)
    requires n <= m <= |rest|
    ensures a + Evictables(rest, n) <= a + Evictables(rest, m)
  {
    if n < m {
      EvictablesPrefix(a, rest, n, m - 1);
    }
  }

  /** A PCR is stored: there is a reserved object with its number. */
  ghost predicate Mentioned(objs: seq<Obj>, id: nat) {
    exists k {:trigger objs[k]} :: 0 <= k < |objs| && IsNumber(objs[k], id)
  }

  predicate IsNumber(o: Obj, id: nat) {
    o.kind == NN_OBJ_TPM_RESERVED && o.body != [] && o.body[0] as nat == id
  }

  lemma MentionedNext(objs: seq<Obj>, o: Obj, id: nat)
    ensures Mentioned(objs + [o], id) <==> Mentioned(objs, id) || IsNumber(o, id)
  {
    var all := objs + [o];
    if Mentioned(objs, id) {
      var k :| 0 <= k < |objs| && IsNumber(objs[k], id);
      assert all[k] == objs[k];
    }
    assert all[|objs|] == o;
  }

  function PcrBody(cache: Cache, i: nat): seq<uint8>
    requires i < |cache.pcrs| && cache.pcrBase + |cache.pcrs| <= 256
  {
    [(cache.pcrBase + i) as uint8] + cache.pcrs[i]
  }

  /** Which PCRs are not stored, and have something to store. */
  ghost function NewPcrs(cache: Cache, objs: seq<Obj>): (isNew: seq<bool>)
    ensures |isNew| == |cache.pcrs|
  {
    seq(|cache.pcrs|,
        i requires 0 <= i < |cache.pcrs| => !Mentioned(objs, cache.pcrBase + i) && !IsEmpty(cache.pcrs[i]))
  }

  /** What the PCRs are stored as. */
  ghost function PcrBodies(cache: Cache): (bodies: seq<seq<uint8>>)
    requires cache.pcrBase + |cache.pcrs| <= 256
    ensures |bodies| == |cache.pcrs|
  {
    seq(|cache.pcrs|, i requires 0 <= i < |cache.pcrs| => PcrBody(cache, i))
  }

  /** Those of the first n PCRs that are new. */
  ghost function PcrObjs(bodies: seq<seq<uint8>>, isNew: seq<bool>, n: nat): seq<Obj>
    requires n <= |isNew| == |bodies|
  {
    if n == 0 then [] else PcrObjs(bodies, isNew, n - 1) + PcrObj(bodies[n - 1], isNew[n - 1])
  }

  lemma {:induction false} PcrObjsPrefix(a: seq<Obj>, bodies: seq<seq<uint8>>, isNew: seq<bool>, n: nat, m: nat)
    requires n <= m <= |isNew| == |bodies|
    ensures a + PcrObjs(bodies, isNew, n) <= a + PcrObjs(bodies, isNew, m)
  {
    if n < m {
      PcrObjsPrefix(a, bodies, isNew, n, m - 1);
    }
  }

  function PcrObj(body: seq<uint8>, isNew: bool): seq<Obj> { if isNew then [Obj(NN_OBJ_TPM_RESERVED, body)] else [] }

  /** The bytes the first n of some bodies take. */
  ghost function BodyBytes(rest: seq<seq<uint8>>, n: nat): nat
    requires n <= |rest|
  {
    if n == 0 then 0 else BodyBytes(rest, n - 1) + AlignedSize(|rest[n - 1]|)
  }

  lemma {:induction false} BodyBytesGrow(rest: seq<seq<uint8>>, n: nat, m: nat)
    requires n <= m <= |rest|
    ensures BodyBytes(rest, n) <= BodyBytes(rest, m)
  {
    if n < m {
      BodyBytesGrow(rest, n, m - 1);
    }
  }

  /** The bytes they take. */
  ghost function PcrBytes(bodies: seq<seq<uint8>>, isNew: seq<bool>, n: nat): nat
    requires n <= |isNew| == |bodies|
  {
    if n == 0 then 0 else PcrBytes(bodies, isNew, n - 1) + PcrSize(bodies[n - 1], isNew[n - 1])
  }

  function PcrSize(body: seq<uint8>, isNew: bool): nat { if isNew then AlignedSize(|body|) else 0 }

  lemma {:induction false} PcrBytesGrow(bodies: seq<seq<uint8>>, isNew: seq<bool>, n: nat, m: nat)
    requires n <= m <= |isNew| == |bodies|
    ensures PcrBytes(bodies, isNew, n) <= PcrBytes(bodies, isNew, m)
  {
    if n < m {
      PcrBytesGrow(bodies, isNew, n, m - 1);
    }
  }

  ghost function AllPcrs(cache: Cache, objs: seq<Obj>): seq<Obj>
    requires cache.pcrBase + |cache.pcrs| <= 256
  {
    PcrObjs(PcrBodies(cache), NewPcrs(cache, objs), |cache.pcrs|)
  }

  /** All new instances. */
  ghost function Added(cache: Cache, objs: seq<Obj>): seq<Obj>
    requires CacheOk(cache)
  {
    var p := PlanOf(cache, objs);
    p.updates + Evictables(p.rest, |p.rest|) + AllPcrs(cache, objs)
  }

  /** The bytes they take. */
  ghost function AddedBytes(cache: Cache, objs: seq<Obj>): nat
    requires cache.pcrBase + |cache.pcrs| <= 256
  {
    var p := PlanOf(cache, objs);
    p.bytes + BodyBytes(p.rest, |p.rest|) + PcrBytes(PcrBodies(cache), NewPcrs(cache, objs), |cache.pcrs|)
  }

  lemma AddedTakes(cache: Cache, objs: seq<Obj>)
    requires CacheOk(cache)
    ensures AddedBytes(cache, objs) == Sizes(Added(cache, objs))
  {
    var p, isNew := PlanOf(cache, objs), NewPcrs(cache, objs);
    SizesConcat(p.updates + Evictables(p.rest, |p.rest|), AllPcrs(cache, objs));
    SizesConcat(p.updates, Evictables(p.rest, |p.rest|));
    UpdatesTake(cache, objs);
    EvictablesTake(p.rest, |p.rest|);
    PcrsTake(PcrBodies(cache), isNew, |isNew|);
  }

  /** Nothing is to be added if it takes no bytes. */
  lemma AddedNone(cache: Cache, objs: seq<Obj>)
    requires CacheOk(cache)
    ensures Added(cache, objs) == [] <==> AddedBytes(cache, objs) == 0
  {
    AddedTakes(cache, objs);
  }

  lemma OneTakes(a: seq<Obj>, b: seq<Obj>, all: seq<Obj>, n: nat)
    requires all == a + b && ((b == [] && n == 0) || (|b| == 1 && n == AlignedSize(|b[0].body|)))
    ensures Sizes(all) == Sizes(a) + n
  {
    if b == [] {
      assert all == a;
    } else {
      assert all == a + [b[0]];
      SizesNext(a, b[0]);
    }
  }

  lemma {:induction false} UpdatesTake(cache: Cache, objs: seq<Obj>)
    ensures PlanOf(cache, objs).bytes == Sizes(PlanOf(cache, objs).updates)
  {
    if objs != [] {
      var p, o := PlanOf(cache, objs[..|objs| - 1]), objs[|objs| - 1];
      var a := ActionOn(cache, p.rest, o);
      UpdatesTake(cache, objs[..|objs| - 1]);
      OneTakes(p.updates, UpdateOf(a, o), p.updates + UpdateOf(a, o), BytesOf(a));
    }
  }

  lemma {:induction false} EvictablesTake(rest: seq<seq<uint8>>, n: nat)
    requires n <= |rest|
    ensures Sizes(Evictables(rest, n)) == BodyBytes(rest, n)
  {
    if n > 0 {
      EvictablesTake(rest, n - 1);
      OneTakes(Evictables(rest, n - 1), [Obj(NN_OBJ_TPM_EVICTABLE, rest[n - 1])], Evictables(rest, n),
               AlignedSize(|rest[n - 1]|));
    }
  }

  lemma {:induction false} PcrsTake(bodies: seq<seq<uint8>>, isNew: seq<bool>, n: nat)
    requires n <= |isNew| == |bodies|
    ensures Sizes(PcrObjs(bodies, isNew, n)) == PcrBytes(bodies, isNew, n)
  {
    if n > 0 {
      PcrsTake(bodies, isNew, n - 1);
      OneTakes(PcrObjs(bodies, isNew, n - 1), PcrObj(bodies[n - 1], isNew[n - 1]), PcrObjs(bodies, isNew, n),
               PcrSize(bodies[n - 1], isNew[n - 1]));
    }
  }

  /** Anything is to be written or deleted. */
  ghost predicate Changes(cache: Cache, objs: seq<Obj>)
    requires cache.pcrBase + |cache.pcrs| <= 256
  {
    AddedBytes(cache, objs) > 0 || PlanOf(cache, objs).outdated > 0
  }

  /** The new instances and a delimiter do not fit in some bytes. */
  ghost predicate TooTight(cache: Cache, objs: seq<Obj>, free: int)
    requires cache.pcrBase + |cache.pcrs| <= 256
  {
    AddedBytes(cache, objs) + CONTAINER_SIZE >= free
  }

  /** The save cannot be done: something is to be written and there is no room, or there are too many objects
      to be deleted. */
  ghost predicate Hopeless(cache: Cache, objs: seq<Obj>, free: int)
    requires cache.pcrBase + |cache.pcrs| <= 256
  {
    || (Changes(cache, objs) && TooTight(cache, objs, free))
    || PlanOf(cache, objs).outdated > cache.pcrBase + 4
  }

  // ----- the bytes of objects, however they are ordered

  ghost function Bodies(objs: seq<Obj>, kind: nat): multiset<seq<uint8>> {
    if objs == [] then multiset{} else Bodies(objs[..|objs| - 1], kind) + BodyOf(objs[|objs| - 1], kind)
  }

  ghost function BodyOf(o: Obj, kind: nat): multiset<seq<uint8>> {
    if o.kind == kind then multiset{o.body} else multiset{}
  }

  lemma BodiesNext(objs: seq<Obj>, o: Obj, kind: nat)
    ensures Bodies(objs + [o], kind) == Bodies(objs, kind) + BodyOf(o, kind)
  {
    assert (objs + [o])[..|objs|] == objs;
  }

  lemma BodiesOne(o: Obj, kind: nat)
    ensures Bodies([o], kind) == BodyOf(o, kind) && Bodies([], kind) == multiset{}
  {
    assert [o][..0] == [];
  }

  lemma {:induction false} BodiesConcat(a: seq<Obj>, b: seq<Obj>, kind: nat)
    ensures Bodies(a + b, kind) == Bodies(a, kind) + Bodies(b, kind)
    decreases |b|, 1
  {
    if b == [] {
      assert a + b == a;
    } else {
      Unsnoc(a, b);
      BodiesStep(a, b[..|b| - 1], b[|b| - 1], b, kind);
    }
  }

  lemma BodiesStep(a: seq<Obj>, b: seq<Obj>, o: Obj, more: seq<Obj>, kind: nat)
    requires more == b + [o] && a + more == (a + b) + [o]
    ensures Bodies(a + more, kind) == Bodies(a, kind) + Bodies(more, kind)
    decreases |b| + 1, 0
  {
    BodiesConcat(a, b, kind);
    BodiesNext(a + b, o, kind);
    BodiesNext(b, o, kind);
  }

  lemma Unsnoc<T>(a: seq<T>, b: seq<T>)
    requires b != []
    ensures b == b[..|b| - 1] + [b[|b| - 1]] && a + b == (a + b[..|b| - 1]) + [b[|b| - 1]]
  {
  }

  /** What the reserved objects are to be. */
  ghost function FreshBodies(cache: Cache, objs: seq<Obj>): multiset<seq<uint8>> {
    if objs == [] then multiset{}
    else FreshBodies(cache, objs[..|objs| - 1]) + FreshBody(cache, objs[|objs| - 1])
  }

  ghost function FreshBody(cache: Cache, o: Obj): multiset<seq<uint8>> {
    if o.kind == NN_OBJ_TPM_RESERVED then multiset{Fresh(cache, o.body)} else multiset{}
  }

  /** The tuples, in order. */
  ghost function Tuples(objs: seq<Obj>): seq<Obj> {
    if objs == [] then [] else Tuples(objs[..|objs| - 1]) + TupleIn(objs[|objs| - 1])
  }

  ghost function TupleIn(o: Obj): seq<Obj> { if o.kind == NN_OBJ_TUPLE then [o] else [] }

  lemma TuplesNext(objs: seq<Obj>, o: Obj)
    ensures Tuples(objs + [o]) == Tuples(objs) + TupleIn(o)
  {
    assert (objs + [o])[..|objs|] == objs;
  }

  lemma {:induction false} TuplesConcat(a: seq<Obj>, b: seq<Obj>)
    ensures Tuples(a + b) == Tuples(a) + Tuples(b)
    decreases |b|, 1
  {
    if b == [] {
      assert a + b == a;
    } else {
      Unsnoc(a, b);
      TuplesStep(a, b[..|b| - 1], b[|b| - 1], b);
    }
  }

  lemma TuplesStep(a: seq<Obj>, b: seq<Obj>, o: Obj, more: seq<Obj>)
    requires more == b + [o] && a + more == (a + b) + [o]
    ensures Tuples(a + more) == Tuples(a) + Tuples(more)
    decreases |b| + 1, 0
  {
    TuplesConcat(a, b);
    TuplesNext(a + b, o);
    TuplesNext(b, o);
  }

  // ----- what a save leaves

  /** Taking one of some objects off their list leaves the others. */
  lemma TakenOff(rest: seq<seq<uint8>>, i: nat)
    requires i < |rest|
    ensures var n := |rest| - 1;
            multiset(rest) == multiset(rest[i := rest[n]][..n]) + multiset{rest[i]}
  {
    var n := |rest| - 1;
    if i == n {
      assert rest == rest[..n] + [rest[n]] && rest[i := rest[n]] == rest;
    } else {
      assert rest == rest[..i] + [rest[i]] + rest[i + 1..n] + [rest[n]];
      assert rest[i := rest[n]][..n] == rest[..i] + [rest[n]] + rest[i + 1..n];
    }
  }

  /** What is done about one evictable object accounts for the cached one it stands for. */
  lemma EvictableBalance(cache: Cache, rest: seq<seq<uint8>>, o: Obj)
    ensures var a := ActionOn(cache, rest, o);
            multiset(rest) == multiset(RestAfter(rest, o))
                              + (Bodies(StayOf(a, o), NN_OBJ_TPM_EVICTABLE)
                                  + Bodies(UpdateOf(a, o), NN_OBJ_TPM_EVICTABLE))
  {
    var a := ActionOn(cache, rest, o);
    BodiesOne(o, NN_OBJ_TPM_EVICTABLE);
    if a.Replace? {
      BodiesOne(Obj(o.kind, a.body), NN_OBJ_TPM_EVICTABLE);
    }
    var i := IndexOf(rest, HandleOf(o.body));
    if o.kind == NN_OBJ_TPM_EVICTABLE && i < |rest| {
      TakenOff(rest, i);
    }
  }

  lemma OtherBalance(cache: Cache, rest: seq<seq<uint8>>, o: Obj)
    ensures var a := ActionOn(cache, rest, o);
            && Bodies(StayOf(a, o), NN_OBJ_TPM_RESERVED) + Bodies(UpdateOf(a, o), NN_OBJ_TPM_RESERVED)
                == FreshBody(cache, o)
            && Tuples(StayOf(a, o)) == TupleIn(o) && Tuples(UpdateOf(a, o)) == []
  {
    var a := ActionOn(cache, rest, o);
    match a
    case Keep =>
      OneObject(o);
    case Drop =>
      BodiesOne(o, NN_OBJ_TPM_RESERVED);
    case Replace(body) =>
      OneObject(Obj(o.kind, body));
  }

  lemma OneObject(o: Obj)
    ensures Bodies([o], NN_OBJ_TPM_RESERVED) == BodyOf(o, NN_OBJ_TPM_RESERVED) && Tuples([o]) == TupleIn(o)
    ensures Bodies([], NN_OBJ_TPM_RESERVED) == multiset{} && Tuples([]) == []
  {
    BodiesOne(o, NN_OBJ_TPM_RESERVED);
    TuplesNext([], o);
    assert [] + [o] == [o];
  }

  lemma Moved<T>(a: multiset<T>, b: multiset<T>, c: multiset<T>, d: multiset<T>, r: multiset<T>, r': multiset<T>)
    requires r == r' + (c + d)
    ensures (a + c) + (b + d) + r' == a + b + r
  {
  }

  lemma Exchange<T>(a: multiset<T>, b: multiset<T>, c: multiset<T>, d: multiset<T>)
    ensures (a + c) + (b + d) == (a + b) + (c + d)
  {
  }

  /** The evictable objects that stay, those that are updated, and those not met. */
  ghost function AllBodies(p: Plan): multiset<seq<uint8>> {
    Bodies(p.stays, NN_OBJ_TPM_EVICTABLE) + Bodies(p.updates, NN_OBJ_TPM_EVICTABLE) + multiset(p.rest)
  }

  lemma AllBodiesKept(cache: Cache, p: Plan, o: Obj)
    ensures AllBodies(Next(cache, p, o)) == AllBodies(p)
  {
    var a := ActionOn(cache, p.rest, o);
    BodiesConcat(p.stays, StayOf(a, o), NN_OBJ_TPM_EVICTABLE);
    BodiesConcat(p.updates, UpdateOf(a, o), NN_OBJ_TPM_EVICTABLE);
    EvictableBalance(cache, p.rest, o);
    Moved(Bodies(p.stays, NN_OBJ_TPM_EVICTABLE), Bodies(p.updates, NN_OBJ_TPM_EVICTABLE),
          Bodies(StayOf(a, o), NN_OBJ_TPM_EVICTABLE), Bodies(UpdateOf(a, o), NN_OBJ_TPM_EVICTABLE),
          multiset(p.rest), multiset(RestAfter(p.rest, o)));
  }

  /** They are the cached ones. */
  lemma {:induction false} Evicted(cache: Cache, objs: seq<Obj>)
    ensures AllBodies(PlanOf(cache, objs)) == multiset(cache.objects)
  {
    if objs == [] {
      BodiesOne(Obj(0, []), NN_OBJ_TPM_EVICTABLE);
    } else {
      Evicted(cache, objs[..|objs| - 1]);
      AllBodiesKept(cache, PlanOf(cache, objs[..|objs| - 1]), objs[|objs| - 1]);
    }
  }

  /** The objects not met are cached objects. */
  lemma RestCached(cache: Cache, objs: seq<Obj>, i: nat)
    requires i < |PlanOf(cache, objs).rest|
    ensures PlanOf(cache, objs).rest[i] in cache.objects
  {
    var p := PlanOf(cache, objs);
    Evicted(cache, objs);
    InSum(Bodies(p.stays, NN_OBJ_TPM_EVICTABLE) + Bodies(p.updates, NN_OBJ_TPM_EVICTABLE), p.rest, cache.objects, i);
  }

  lemma InSum<T>(a: multiset<T>, r: seq<T>, all: seq<T>, i: nat)
    requires a + multiset(r) == multiset(all) && i < |r|
    ensures r[i] in all
  {
    assert r[i] in multiset(r);
    assert r[i] in multiset(all);
  }

  /** The reserved objects that stay and those that are updated. */
  ghost function ReservedBodies(p: Plan): multiset<seq<uint8>> {
    Bodies(p.stays, NN_OBJ_TPM_RESERVED) + Bodies(p.updates, NN_OBJ_TPM_RESERVED)
  }

  lemma ReservedNext(cache: Cache, p: Plan, o: Obj)
    ensures ReservedBodies(Next(cache, p, o)) == ReservedBodies(p) + FreshBody(cache, o)
    ensures Tuples(Next(cache, p, o).stays) == Tuples(p.stays) + TupleIn(o)
    ensures Tuples(Next(cache, p, o).updates) == Tuples(p.updates)
  {
    var a := ActionOn(cache, p.rest, o);
    BodiesConcat(p.stays, StayOf(a, o), NN_OBJ_TPM_RESERVED);
    BodiesConcat(p.updates, UpdateOf(a, o), NN_OBJ_TPM_RESERVED);
    TuplesConcat(p.stays, StayOf(a, o));
    TuplesConcat(p.updates, UpdateOf(a, o));
    OtherBalance(cache, p.rest, o);
    Exchange(Bodies(p.stays, NN_OBJ_TPM_RESERVED), Bodies(p.updates, NN_OBJ_TPM_RESERVED),
             Bodies(StayOf(a, o), NN_OBJ_TPM_RESERVED), Bodies(UpdateOf(a, o), NN_OBJ_TPM_RESERVED));
    assert Tuples(p.updates) + [] == Tuples(p.updates);
  }

  /** They are as the cache has them. */
  lemma {:induction false} Refreshed(cache: Cache, objs: seq<Obj>)
    ensures ReservedBodies(PlanOf(cache, objs)) == FreshBodies(cache, objs)
    ensures Tuples(PlanOf(cache, objs).stays) == Tuples(objs) && Tuples(PlanOf(cache, objs).updates) == []
  {
    if objs == [] {
      BodiesOne(Obj(0, []), NN_OBJ_TPM_RESERVED);
    } else {
      Refreshed(cache, objs[..|objs| - 1]);
      ReservedNext(cache, PlanOf(cache, objs[..|objs| - 1]), objs[|objs| - 1]);
    }
  }

  /** The first n of some bodies, as evictable objects. */
  lemma {:induction false} EvictableBodies(rest: seq<seq<uint8>>, n: nat)
    requires n <= |rest|
    ensures Bodies(Evictables(rest, n), NN_OBJ_TPM_EVICTABLE) == multiset(rest[..n])
  {
    if n == 0 {
      BodiesOne(Obj(0, []), NN_OBJ_TPM_EVICTABLE);
    } else {
      EvictableBodies(rest, n - 1);
      BodiesNext(Evictables(rest, n - 1), Obj(NN_OBJ_TPM_EVICTABLE, rest[n - 1]), NN_OBJ_TPM_EVICTABLE);
      OneMore(rest, n);
    }
  }

  lemma OneMore<T>(s: seq<T>, n: nat)
    requires 0 < n <= |s|
    ensures multiset(s[..n]) == multiset(s[..n - 1]) + multiset{s[n - 1]}
  {
    assert s[..n] == s[..n - 1] + [s[n - 1]];
  }

  /** They are nothing else. */
  lemma {:induction false} EvictablesOnly(rest: seq<seq<uint8>>, n: nat)
    requires n <= |rest|
    ensures Bodies(Evictables(rest, n), NN_OBJ_TPM_RESERVED) == multiset{} && Tuples(Evictables(rest, n)) == []
  {
    if n > 0 {
      EvictablesOnly(rest, n - 1);
      BodiesNext(Evictables(rest, n - 1), Obj(NN_OBJ_TPM_EVICTABLE, rest[n - 1]), NN_OBJ_TPM_RESERVED);
      TuplesNext(Evictables(rest, n - 1), Obj(NN_OBJ_TPM_EVICTABLE, rest[n - 1]));
    }
  }

  lemma {:induction false} PcrsOnly(bodies: seq<seq<uint8>>, isNew: seq<bool>, n: nat)
    requires n <= |isNew| == |bodies|
    ensures Bodies(PcrObjs(bodies, isNew, n), NN_OBJ_TPM_EVICTABLE) == multiset{}
    ensures Tuples(PcrObjs(bodies, isNew, n)) == []
  {
    if n > 0 {
      PcrsOnly(bodies, isNew, n - 1);
      OneReserved(PcrObjs(bodies, isNew, n - 1), PcrObj(bodies[n - 1], isNew[n - 1]), PcrObjs(bodies, isNew, n));
    }
  }

  /** A reserved object, or none, adds nothing of the other types. */
  lemma OneReserved(a: seq<Obj>, b: seq<Obj>, all: seq<Obj>)
    requires all == a + b && (b == [] || (|b| == 1 && b[0].kind == NN_OBJ_TPM_RESERVED))
    requires Bodies(a, NN_OBJ_TPM_EVICTABLE) == multiset{} && Tuples(a) == []
    ensures Bodies(all, NN_OBJ_TPM_EVICTABLE) == multiset{} && Tuples(all) == []
  {
    if b == [] {
      assert all == a;
    } else {
      assert all == a + [b[0]];
      BodiesNext(a, b[0], NN_OBJ_TPM_EVICTABLE);
      TuplesNext(a, b[0]);
    }
  }

  /** What flash holds after a save: the cached objects, each once, what the cache has for the reserved
      objects, those PCRs that were not stored, and the tuples. */
  ghost predicate SavedAs(cache: Cache, before: seq<Obj>, after: seq<Obj>)
    requires CacheOk(cache)
  {
    && Bodies(after, NN_OBJ_TPM_EVICTABLE) == multiset(cache.objects)
    && Bodies(after, NN_OBJ_TPM_RESERVED)
       == FreshBodies(cache, before) + Bodies(AllPcrs(cache, before), NN_OBJ_TPM_RESERVED)
    && Tuples(after) == Tuples(before)
  }

  /** The objects that stay, and the new instances. */
  ghost function AfterSave(cache: Cache, objs: seq<Obj>): seq<Obj>
    requires CacheOk(cache)
  {
    PlanOf(cache, objs).stays + Added(cache, objs)
  }

  /** They are what a save is to leave. */
  lemma Saved(cache: Cache, objs: seq<Obj>)
    requires CacheOk(cache)
    ensures SavedAs(cache, objs, AfterSave(cache, objs))
  {
    var p := PlanOf(cache, objs);
    Evicted(cache, objs);
    Refreshed(cache, objs);
    PcrsOnly(PcrBodies(cache), NewPcrs(cache, objs), |cache.pcrs|);
    AllEvictable(p.rest);
    Together(p.stays, p.updates, Evictables(p.rest, |p.rest|), AllPcrs(cache, objs),
             multiset(p.rest));
  }

  lemma AllEvictable(r: seq<seq<uint8>>)
    ensures Bodies(Evictables(r, |r|), NN_OBJ_TPM_EVICTABLE) == multiset(r)
    ensures Bodies(Evictables(r, |r|), NN_OBJ_TPM_RESERVED) == multiset{} && Tuples(Evictables(r, |r|)) == []
  {
    EvictableBodies(r, |r|);
    EvictablesOnly(r, |r|);
    assert r[..|r|] == r;
  }

  /** Objects of four kinds together. */
  lemma Together(s: seq<Obj>, u: seq<Obj>, e: seq<Obj>, p: seq<Obj>, r: multiset<seq<uint8>>)
    requires Bodies(e, NN_OBJ_TPM_EVICTABLE) == r && Bodies(e, NN_OBJ_TPM_RESERVED) == multiset{} && Tuples(e) == []
    requires Bodies(p, NN_OBJ_TPM_EVICTABLE) == multiset{} && Tuples(p) == [] && Tuples(u) == []
    ensures var all := s + (u + e + p);
            && Bodies(all, NN_OBJ_TPM_EVICTABLE)
                == Bodies(s, NN_OBJ_TPM_EVICTABLE) + Bodies(u, NN_OBJ_TPM_EVICTABLE) + r
            && Bodies(all, NN_OBJ_TPM_RESERVED)
               == Bodies(s, NN_OBJ_TPM_RESERVED) + Bodies(u, NN_OBJ_TPM_RESERVED) + Bodies(p, NN_OBJ_TPM_RESERVED)
            && Tuples(all) == Tuples(s)
  {
    Parts(s, u, e, p, NN_OBJ_TPM_EVICTABLE);
    Parts(s, u, e, p, NN_OBJ_TPM_RESERVED);
    TuplesConcat(s, u + e + p);
    TuplesConcat(u + e, p);
    TuplesConcat(u, e);
  }

  lemma Parts(s: seq<Obj>, u: seq<Obj>, e: seq<Obj>, p: seq<Obj>, kind: nat)
    ensures Bodies(s + (u + e + p), kind) == Bodies(s, kind) + Bodies(u, kind) + Bodies(e, kind) + Bodies(p, kind)
  {
    BodiesConcat(s, u + e + p, kind);
    BodiesConcat(u + e, p, kind);
    BodiesConcat(u, e, kind);
  }

  // ----- deleting at the end

  /** The live objects among items i to j - 1 that are not marked. */
  ghost function Staying(log: seq<Item>, i: nat, j: nat, gone: seq<nat>): seq<Obj>
    requires j <= |log|
    decreases j
  {
    if i >= j then []
    else
      Staying(log, i, j - 1, gone)
      + if IsLive(log[j - 1]) && j - 1 !in gone then [Obj(log[j - 1].kind, log[j - 1].body)] else []
  }

  /** Only marks among the items matter. */
  lemma {:induction false} StayingMarks(log: seq<Item>, i: nat, j: nat, gone: seq<nat>, gone': seq<nat>)
    requires j <= |log| && forall k :: i <= k < j ==> (k in gone <==> k in gone')
    ensures Staying(log, i, j, gone) == Staying(log, i, j, gone')
    decreases j
  {
    if i < j {
      StayingMarks(log, i, j - 1, gone, gone');
    }
  }

  /** Items that are not live may be passed. */
  lemma {:induction false} StayingPast(log: seq<Item>, i: nat, k: nat, j: nat, gone: seq<nat>)
    requires i <= k <= j <= |log| && forall n :: k <= n < j ==> !IsLive(log[n])
    ensures Staying(log, i, j, gone) == Staying(log, i, k, gone)
    decreases j
  {
    if k < j {
      StayingPast(log, i, k, j - 1, gone);
    }
  }

  /** When what is marked is deleted, the rest is live. */
  lemma {:induction false} StayingIsLive(log: seq<Item>, log': seq<Item>, i: nat, j: nat, gone: seq<nat>)
    requires j <= |log| && j <= |log'|
    requires forall k {:trigger log'[k]} :: i <= k < j ==> log'[k] == if k in gone then Deleted(log[k]) else log[k]
    ensures Live(log', i, j) == Staying(log, i, j, gone)
    decreases j
  {
    if i < j {
      StayingIsLive(log, log', i, j - 1, gone);
      assert log'[j - 1] == if j - 1 in gone then Deleted(log[j - 1]) else log[j - 1];
    }
  }
}
