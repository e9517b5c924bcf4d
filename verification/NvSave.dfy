/** Saving the NVMEM cache: new_nvmem_save_. */
module NvSave {
  import opened Common
  import opened NvLayout
  import opened NvLog
  import opened NvStore
  import opened NvLive
  import opened NvPlan
  import opened NvDevice
  import opened NvCompact
  import opened NvVars
  import opened NvRecover

  /** Where a container is. */
  datatype Place = Place(page: nat, offset: nat)

  /** What there is when a save starts: the items, where they end, and how many bytes are left. */
  datatype Start = Start(log: seq<Item>, end: int, free: int)

  /** The objects that were added. */
  ghost function New(s: Store, w: Start): seq<Obj>
    reads s
  {
    Live(s.log, |w.log|, |s.log|)
  }

  /** Objects are being added to what was there, and no delimiter closes them yet. */
  ghost predicate Saving(s: Store, w: Start)
    reads s
  {
    && s.Valid() && s.To() >= 0 && s.low <= |w.log| && w.log <= s.log && PosAtEnd(s, |w.log|) == w.end
    && (forall k {:trigger s.log[k]} :: |w.log| <= k < |s.log| ==> IsLive(s.log[k]) && s.log[k].copy == s.log[k].kind)
  }

  /** Power lasts for a number of containers: one less for each that was added. */
  twostate predicate Spent(s: Store, new rc: Code, power: nat, new power': nat)
    reads s
  {
    power' + |s.log| == power + old(|s.log|) && (rc == PowerLost ==> power' == 0)
  }

  /** save_container for an object, unless power is lost before. */
  method Put(s: Store, kind: nat, generation: nat, body: seq<uint8>, power: nat, ghost w: Start, at: Tracker,
             ghost r: nat)
    returns (rc: Code, power': nat)
    requires Saving(s, w) && generation < GENERATIONS && |body| <= MAX_OBJECT_SIZE && r <= |w.log| && s.At(at, r)
    requires kind == NN_OBJ_TPM_RESERVED || kind == NN_OBJ_TPM_EVICTABLE
    modifies s`headers, s`data, s`index, s`offset, s`log, s`firsts
    ensures rc == Success || rc == Reboot || rc == PowerLost
    ensures rc != Reboot ==> Saving(s, w) && Spent(s, rc, power, power')
    ensures rc == Success ==> s.At(at, r) && New(s, w) == old(New(s, w)) + [Obj(kind, body)]
    ensures rc == Success ==> s.Free() == old(s.Free()) - AlignedSize(|body|)
    ensures rc == Reboot ==> AlignedSize(|body|) >= old(s.Free())
    ensures rc == PowerLost ==> unchanged(s)
  {
    power' := power;
    if power == 0 {
      return PowerLost, 0;
    }
    ghost var log, hs, to := s.log, s.headers, s.To();
    rc := s.SaveContainer(kind, generation, body);
    if rc == Success {
      power' := power - 1;
      s.LowInLog();
      LiveAppend(log, |w.log|, s.log[|log|]);
      s.AtKept(hs, log, to, at, r);
    }
  }

  // ----- what is to be deleted

  /** Places of items that are to be deleted. */
  ghost predicate Marked(log: seq<Item>, low: nat, del: seq<Place>, gone: seq<nat>, n: nat) {
    && |del| == |gone| && n <= |log|
    && (forall i {:trigger gone[i]} :: 0 <= i < |gone| ==>
          && low <= gone[i] < n && Position(del[i].page, del[i].offset) == log[gone[i]].pos
          && PAGE_HEADER_SIZE <= del[i].offset < CONFIG_FLASH_BANK_SIZE)
  }

  lemma MarksKept(log: seq<Item>, log': seq<Item>, was: seq<Item>, low: nat, del: seq<Place>, gone: seq<nat>, n: nat)
    requires was <= log && was <= log' && n <= |was| && Marked(log, low, del, gone, n)
    ensures Marked(log', low, del, gone, n)
  {
    forall i {:trigger gone[i]} | 0 <= i < |gone|
      ensures log[gone[i]] == log'[gone[i]]
    {
      assert log[gone[i]] == was[gone[i]] == log'[gone[i]];
    }
  }

  lemma MarksBelow(log: seq<Item>, low: nat, del: seq<Place>, gone: seq<nat>, n: nat)
    requires Marked(log, low, del, gone, n)
    ensures forall k <- gone :: k < n
  {
    forall k | k in gone
      ensures k < n
    {
      var i :| 0 <= i < |gone| && gone[i] == k;
      assert gone[i] < n;
    }
  }

  /** What was there, as far as it has been gone through: r items, those of them that are gone to be
      deleted. */
  ghost predicate Going(s: Store, w: Start, at: Tracker, r: nat, del: seq<Place>, gone: seq<nat>)
    reads s
  {
    Saving(s, w) && r <= |w.log| && s.At(at, r) && Marked(s.log, s.low, del, gone, r)
  }

  /** delete_object, during a save: the object becomes a candidate. */
  method DeleteObject(s: Store, at: Tracker, del: seq<Place>, pcrBase: nat, ghost w: Start, ghost gone: seq<nat>,
                      ghost j: nat)
    returns (rc: Code, del': seq<Place>)
    requires Going(s, w, at, j + 1, del, gone) && s.low <= j && s.IsPlaceOf(at, j)
    ensures rc == if |del| == pcrBase + 4 then Reboot else Success
    ensures rc == Success ==> Going(s, w, at, j + 1, del', gone + [j])
  {
    if |del| == pcrBase + 4 {
      return Reboot, del;
    }
    return Success, del + [Place(at.cPage, at.cOffset)];
  }

  /** update_object: the new instance is saved, and the old one becomes a candidate. */
  method UpdateObject(s: Store, at: Tracker, item: Item, body: seq<uint8>, del: seq<Place>, pcrBase: nat, power: nat,
                      ghost w: Start, ghost gone: seq<nat>, ghost j: nat)
    returns (rc: Code, del': seq<Place>, power': nat)
    requires Going(s, w, at, j + 1, del, gone) && s.low <= j && s.IsPlaceOf(at, j)
    requires |body| <= MAX_OBJECT_SIZE && (item.kind == NN_OBJ_TPM_RESERVED || item.kind == NN_OBJ_TPM_EVICTABLE)
    modifies s`headers, s`data, s`index, s`offset, s`log, s`firsts
    ensures rc == Success || rc == Reboot || rc == PowerLost
    ensures rc != Reboot ==> Saving(s, w) && Spent(s, rc, power, power')
    ensures rc == Success ==>
              && Going(s, w, at, j + 1, del', gone + [j]) && New(s, w) == old(New(s, w)) + [Obj(item.kind, body)]
              && s.Free() == old(s.Free()) - AlignedSize(|body|) && |del| != pcrBase + 4
    ensures rc == Reboot ==> AlignedSize(|body|) >= old(s.Free()) || |del| == pcrBase + 4
    ensures rc == PowerLost ==> unchanged(s)
  {
    ghost var log := s.log;
    del' := del;
    rc, power' := Put(s, item.kind, (item.generation + 1) % GENERATIONS, body, power, w, at, j + 1);
    if rc == Success {
      MarksKept(log, s.log, w.log, s.low, del, gone, j + 1);
      rc, del' := DeleteObject(s, at, del, pcrBase, w, gone, j);
    }
  }

  // ----- what is done about one object

  /** An action has been carried out on item j. */
  twostate predicate CarriedOut(s: Store, a: Action, o: Obj, pcrBase: nat, w: Start, j: nat, gone: seq<nat>,
                                new gone': seq<nat>)
    reads s
  {
    && (a == Keep || |gone| != pcrBase + 4)
    && New(s, w) == old(New(s, w)) + UpdateOf(a, o) && s.Free() == old(s.Free()) - BytesOf(a)
    && gone' == gone + if a == Keep then [] else [j]
  }

  /** An action cannot be carried out: there is no room, or there are too many objects to be deleted. */
  ghost predicate Impossible(s: Store, a: Action, del: seq<Place>, pcrBase: nat)
    reads s
  {
    a != Keep && ((a.Replace? && AlignedSize(|a.body|) >= s.Free()) || |del| == pcrBase + 4)
  }

  /** The end of process_object, process_reserved and process_pcr: an object that differs from the cached
      one is updated. */
  method Refresh(s: Store, at: Tracker, item: Item, cached: seq<uint8>, del: seq<Place>, pcrBase: nat, power: nat,
                 ghost w: Start, ghost gone: seq<nat>, ghost j: nat, ghost a: Action)
    returns (rc: Code, del': seq<Place>, power': nat, ghost gone': seq<nat>)
    requires Going(s, w, at, j + 1, del, gone) && s.low <= j && s.IsPlaceOf(at, j) && |cached| <= MAX_OBJECT_SIZE
    requires item.kind == NN_OBJ_TPM_RESERVED || item.kind == NN_OBJ_TPM_EVICTABLE
    requires a == if item.body == cached then Keep else Replace(cached)
    modifies s`headers, s`data, s`index, s`offset, s`log, s`firsts
    ensures rc == Success || rc == Reboot || rc == PowerLost
    ensures rc != Reboot ==> Saving(s, w) && Spent(s, rc, power, power')
    ensures rc == Success ==>
              && Going(s, w, at, j + 1, del', gone')
              && CarriedOut(s, a, Obj(item.kind, item.body), pcrBase, w, j, gone, gone')
    ensures rc == Reboot ==> old(Impossible(s, a, del, pcrBase))
    ensures rc == PowerLost ==> unchanged(s)
  {
    rc, del', power', gone' := Success, del, power, gone;
    if cached != item.body {
      rc, del', power' := UpdateObject(s, at, item, cached, del, pcrBase, power, w, gone, j);
      gone' := gone + [j];
    } else {
      assert New(s, w) + [] == New(s, w) && gone + [] == gone;
    }
  }

  /** The objects not met yet are cached objects. */
  ghost predicate Remaining(cache: Cache, rest: seq<seq<uint8>>) {
    forall i {:trigger rest[i]} :: 0 <= i < |rest| ==> rest[i] in cache.objects
  }

  /** The search of process_object. */
  method FindHandle(rest: seq<seq<uint8>>, handle: seq<uint8>) returns (i: nat)
    ensures i == IndexOf(rest, handle)
  {
    i := 0;
    while i < |rest|
      invariant i <= |rest| && forall k :: 0 <= k < i ==> HandleOf(rest[k]) != handle
    {
      if HandleOf(rest[i]) == handle {
        break;
      }
      i := i + 1;
    }
  }

  /** The cached object with the handle of one in flash is taken off the list. */
  method MeetObject(cache: Cache, rest: seq<seq<uint8>>, o: Obj)
    returns (cached: Option<seq<uint8>>, rest': seq<seq<uint8>>)
    requires CacheOk(cache) && Remaining(cache, rest) && o.kind == NN_OBJ_TPM_EVICTABLE && Storable(cache, o)
    ensures rest' == RestAfter(rest, o)
    ensures cached.None? ==> ActionOn(cache, rest, o) == Drop
    ensures cached.Some? ==>
              && |cached.value| == |o.body| <= MAX_OBJECT_SIZE
              && ActionOn(cache, rest, o) == if o.body == cached.value then Keep else Replace(cached.value)
  {
    var i := FindHandle(rest, HandleOf(o.body));
    if i == |rest| {
      return None, rest;
    }
    assert rest[i] in cache.objects && Fits(rest[i]);
    return Some(rest[i]), rest[i := rest[|rest| - 1]][..|rest| - 1];
  }

  /** process_object */
  method ProcessObject(s: Store, cache: Cache, at: Tracker, item: Item, rest: seq<seq<uint8>>, del: seq<Place>,
                       power: nat,
                       ghost w: Start, ghost gone: seq<nat>, ghost j: nat)
    returns (rc: Code, rest': seq<seq<uint8>>, del': seq<Place>, power': nat, ghost gone': seq<nat>)
    requires Going(s, w, at, j + 1, del, gone) && s.low <= j && s.IsPlaceOf(at, j)
    requires CacheOk(cache) && Remaining(cache, rest) && item.kind == NN_OBJ_TPM_EVICTABLE
    requires Storable(cache, Obj(item.kind, item.body))
    modifies s`headers, s`data, s`index, s`offset, s`log, s`firsts
    ensures rc == Success || rc == Reboot || rc == PowerLost
    ensures rc != Reboot ==> Saving(s, w) && Spent(s, rc, power, power')
    ensures rc == Success ==>
              var o := Obj(item.kind, item.body);
              && Going(s, w, at, j + 1, del', gone') && rest' == RestAfter(rest, o)
              && CarriedOut(s, ActionOn(cache, rest, o), o, cache.pcrBase, w, j, gone, gone')
    ensures rc == Reboot ==>
              old(Impossible(s, ActionOn(cache, rest, Obj(item.kind, item.body)), del, cache.pcrBase))
    ensures rc == PowerLost ==> unchanged(s)
  {
    ghost var a := ActionOn(cache, rest, Obj(item.kind, item.body));
    del', power', gone' := del, power, gone;
    var cached;
    cached, rest' := MeetObject(cache, rest, Obj(item.kind, item.body));
    match cached
    case None =>
      rc, del' := DeleteObject(s, at, del, cache.pcrBase, w, gone, j);
      gone' := gone + [j];
      assert New(s, w) + [] == New(s, w);
    case Some(c) =>
      assert c[..|item.body|] == c;
      rc, del', power', gone' := Refresh(s, at, item, c[..|item.body|], del, cache.pcrBase, power, w, gone, j, a);
  }

  /** Which PCRs have been met; and none of the objects that were met ended the save. */
  ghost predicate Seen(cache: Cache, objs: seq<Obj>, seen: seq<bool>) {
    && |seen| == |cache.pcrs| && !Occurs(cache, objs, Refused) && !Occurs(cache, objs, Outside)
    && (forall i {:trigger seen[i]} :: 0 <= i < |seen| ==> (seen[i] <==> Mentioned(objs, cache.pcrBase + i)))
  }

  lemma SeenNext(cache: Cache, objs: seq<Obj>, seen: seq<bool>, o: Obj, seen': seq<bool>)
    requires Seen(cache, objs, seen) && |seen'| == |seen|
    requires !Finds(cache, o, Refused) && !Finds(cache, o, Outside)
    requires forall i {:trigger seen'[i]} :: 0 <= i < |seen| ==>
              (seen'[i] <==> seen[i] || IsNumber(o, cache.pcrBase + i))
    ensures Seen(cache, objs + [o], seen')
  {
    OccursNext(cache, objs, o, Refused);
    OccursNext(cache, objs, o, Outside);
    forall i | 0 <= i < |seen'|
      ensures seen'[i] <==> Mentioned(objs + [o], cache.pcrBase + i)
    {
      MentionedNext(objs, o, cache.pcrBase + i);
      assert seen[i] <==> Mentioned(objs, cache.pcrBase + i);
    }
  }

  /** Objects of other types do not count as PCRs. */
  lemma NotSeen(cache: Cache, objs: seq<Obj>, seen: seq<bool>, o: Obj)
    requires Seen(cache, objs, seen) && o.kind != NN_OBJ_TPM_RESERVED
    ensures Seen(cache, objs + [o], seen)
  {
    SeenNext(cache, objs, seen, o, seen);
  }

  /** The cached bytes of a reserved object, unless it is refused; a PCR is noted in the bitmap. */
  method MeetReserved(cache: Cache, body: seq<uint8>, seen: seq<bool>, ghost objs: seq<Obj>)
    returns (cached: Reserved, seen': seq<bool>)
    requires CacheOk(cache) && Seen(cache, objs, seen) && Storable(cache, Obj(NN_OBJ_TPM_RESERVED, body))
    ensures cached == FindReserved(cache, body)
    ensures cached.Found? ==>
              && [body[0]] + cached.bytes == Fresh(cache, body) && |Fresh(cache, body)| <= MAX_OBJECT_SIZE
              && Seen(cache, objs + [Obj(NN_OBJ_TPM_RESERVED, body)], seen')
  {
    cached, seen' := FindReserved(cache, body), seen;
    if cached.Found? {
      if body[0] !in cache.reserved {
        seen' := seen[body[0] as nat - cache.pcrBase := true];
      }
      SeenNext(cache, objs, seen, Obj(NN_OBJ_TPM_RESERVED, body), seen');
    }
  }

  /** process_reserved and process_pcr.  What is read behind the descriptors of the PCRs is not known. */
  method ProcessReserved(s: Store, cache: Cache, at: Tracker, item: Item, del: seq<Place>, seen: seq<bool>, power: nat,
                         ghost w: Start, ghost gone: seq<nat>, ghost j: nat, ghost objs: seq<Obj>, ghost a: Action)
    returns (rc: Code, del': seq<Place>, seen': seq<bool>, power': nat, ghost gone': seq<nat>)
    requires Going(s, w, at, j + 1, del, gone) && s.low <= j && s.IsPlaceOf(at, j)
    requires CacheOk(cache) && item.kind == NN_OBJ_TPM_RESERVED && Seen(cache, objs, seen)
    requires Storable(cache, Obj(item.kind, item.body)) && a == ActionOn(cache, [], Obj(item.kind, item.body))
    modifies s`headers, s`data, s`index, s`offset, s`log, s`firsts
    ensures rc == Success || rc == Reboot || rc == PowerLost || rc == Invalid || rc == OutOfBounds
    ensures rc == Invalid <==> FindReserved(cache, item.body) == Refused
    ensures rc == OutOfBounds <==> FindReserved(cache, item.body) == Outside
    ensures rc != Reboot ==> Saving(s, w) && Spent(s, rc, power, power')
    ensures rc == Success ==>
              && Going(s, w, at, j + 1, del', gone') && Seen(cache, objs + [Obj(item.kind, item.body)], seen')
              && CarriedOut(s, a, Obj(item.kind, item.body), cache.pcrBase, w, j, gone, gone')
    ensures rc == Reboot ==> old(Impossible(s, a, del, cache.pcrBase))
    ensures rc == PowerLost || rc == Invalid ==> unchanged(s)
  {
    del', power', gone' := del, power, gone;
    var cached;
    cached, seen' := MeetReserved(cache, item.body, seen, objs);
    match cached
    case Refused =>
      rc := Invalid;
    case Outside =>
      rc := OutOfBounds;
    case Found(c) =>
      rc, del', power', gone' := Refresh(s, at, item, [item.body[0]] + c, del, cache.pcrBase, power, w, gone, j, a);
  }

  // ----- the loop

  /** What a save can rely on. */
  ghost predicate CanSave(cache: Cache, was: seq<Item>, low: nat) {
    && CacheOk(cache) && low <= |was| && (low == |was| || IsFinalized(was[|was| - 1]))
    && (forall o {:trigger Storable(cache, o)} :: o in Live(was, low, |was|) ==> Storable(cache, o))
  }

  /** What is to come of a save, as it is known when it starts: the plan for the first j items, what is added
      and the bytes it takes, whether it is hopeless, and whether there is an object that ends it. */
  datatype Forecast = Forecast(plan: nat -> Plan, added: seq<Obj>, need: nat, hopeless: bool, refused: bool,
                               outside: bool)

  ghost function PlanFor(f: Forecast, j: nat): Plan { f.plan(j) }

  ghost predicate Foreseen(cache: Cache, w: Start, low: nat, f: Forecast)
    requires CacheOk(cache)
  {
    && (forall j: nat {:trigger PlanFor(f, j)} :: low <= j <= |w.log| ==>
          && PlanFor(f, j) == PlanOf(cache, Live(w.log, low, j)) && PlanFor(f, j).bytes <= f.need
          && PlanFor(f, j).updates <= f.added
          && (Hopeless(cache, Live(w.log, low, |w.log|), w.free) ==> f.hopeless))
    && (low <= |w.log| ==>
          && (Occurs(cache, Live(w.log, low, |w.log|), Refused) ==> f.refused)
          && (Occurs(cache, Live(w.log, low, |w.log|), Outside) ==> f.outside))
  }

  ghost function Forecasted(cache: Cache, w: Start, low: nat): Forecast
    requires CacheOk(cache) && low <= |w.log|
  {
    var objs := Live(w.log, low, |w.log|);
    Forecast((j: nat) => PlanOf(cache, Live(w.log, low, if j <= |w.log| then j else 0)),
             Added(cache, objs), AddedBytes(cache, objs), Hopeless(cache, objs, w.free),
             Occurs(cache, objs, Refused), Occurs(cache, objs, Outside))
  }

  lemma Foresee(cache: Cache, w: Start, low: nat)
    requires CacheOk(cache) && low <= |w.log|
    ensures Foreseen(cache, w, low, Forecasted(cache, w, low))
  {
    var f := Forecasted(cache, w, low);
    forall j: nat | low <= j <= |w.log|
      ensures PlanFor(f, j) == PlanOf(cache, Live(w.log, low, j)) && PlanFor(f, j).bytes <= f.need
      ensures PlanFor(f, j).updates <= f.added
    {
      UpTo(cache, w.log, low, j);
    }
  }

  /** What was planned for the first r items that were there has been done. */
  ghost predicate Planned(s: Store, cache: Cache, w: Start, f: Forecast, r: nat, rest: seq<seq<uint8>>, seen: seq<bool>,
                          gone: seq<nat>)
    requires r <= |w.log|
    reads s
  {
    && Seen(cache, Live(w.log, s.low, r), seen) && s.Free() <= w.free && |gone| <= cache.pcrBase + 4
    && f.plan(r) == Plan(rest, Staying(w.log, s.low, r, gone), New(s, w), |gone|, w.free - s.Free())
  }

  /** A save has gone through r of the items that were there. */
  ghost predicate Scanned(s: Store, cache: Cache, w: Start, f: Forecast, at: Tracker, r: nat, rest: seq<seq<uint8>>,
                          del: seq<Place>, seen: seq<bool>, gone: seq<nat>)
    reads s
  {
    Going(s, w, at, r, del, gone) && Planned(s, cache, w, f, r, rest, seen, gone)
  }

  /** Passing over items that are not given to a reader. */
  lemma Skipped(was: seq<Item>, low: nat, r: nat, j: nat, gone: seq<nat>)
    requires low <= r <= j <= |was| && j == NextVisible(was, r, false)
    ensures Live(was, low, j) == Live(was, low, r) && Staying(was, low, j, gone) == Staying(was, low, r, gone)
  {
    LiveSplit(was, low, r, j);
    SteppedOver(was, r);
    assert Live(was, low, r) + [] == Live(was, low, r);
    StayingPast(was, low, r, j, gone);
  }

  lemma MemberOf(was: seq<Item>, low: nat, j: nat)
    requires low <= j < |was| && IsLive(was[j])
    ensures Obj(was[j].kind, was[j].body) in Live(was, low, |was|)
    ensures Live(was, low, j + 1) == Live(was, low, j) + [Obj(was[j].kind, was[j].body)]
  {
    var o := Obj(was[j].kind, was[j].body);
    LiveDelete(was, low, j);
    assert Live(was, low, |was|)[|Live(was, low, j)|] == o;
  }

  /** One more item that stays, or not. */
  lemma StayingNext(was: seq<Item>, low: nat, j: nat, gone: seq<nat>, a: Action)
    requires low <= j < |was| && IsLive(was[j]) && (forall k <- gone :: k < j)
    ensures var gone' := gone + if a == Keep then [] else [j];
            Staying(was, low, j + 1, gone') == Staying(was, low, j, gone) + StayOf(a, Obj(was[j].kind, was[j].body))
  {
    var gone' := gone + if a == Keep then [] else [j];
    StayingMarks(was, low, j, gone, gone');
    assert j !in gone;
    assert a != Keep ==> gone'[|gone|] == j;
  }

  /** The plan, when a live item has been dealt with. */
  lemma Passed(cache: Cache, was: seq<Item>, low: nat, j: nat, rest: seq<seq<uint8>>, new_: seq<Obj>, gone: seq<nat>,
               bytes: nat, a: Action, gone': seq<nat>)
    requires low <= j < |was| && IsLive(was[j]) && (forall k <- gone :: k < j)
    requires PlanOf(cache, Live(was, low, j)) == Plan(rest, Staying(was, low, j, gone), new_, |gone|, bytes)
    requires a == ActionOn(cache, rest, Obj(was[j].kind, was[j].body)) && gone' == gone + if a == Keep then [] else [j]
    ensures var o := Obj(was[j].kind, was[j].body);
            PlanOf(cache, Live(was, low, j + 1))
            == Plan(RestAfter(rest, o), Staying(was, low, j + 1, gone'), new_ + UpdateOf(a, o), |gone'|,
                    bytes + BytesOf(a))
  {
    MemberOf(was, low, j);
    StayingNext(was, low, j, gone, a);
    PlanNext(cache, Live(was, low, j), Obj(was[j].kind, was[j].body));
  }

  /** And when one that is not live has been passed. */
  lemma PassedDead(was: seq<Item>, low: nat, j: nat, gone: seq<nat>)
    requires low <= j < |was| && !IsLive(was[j])
    ensures Live(was, low, j + 1) == Live(was, low, j) && Staying(was, low, j + 1, gone) == Staying(was, low, j, gone)
  {
    assert Live(was, low, j) + [] == Live(was, low, j) && Staying(was, low, j, gone) + [] == Staying(was, low, j, gone);
  }

  /** Tuples and delimiters are left alone. */
  lemma PassOther(cache: Cache, was: seq<Item>, low: nat, j: nat, rest: seq<seq<uint8>>, new_: seq<Obj>, gone: seq<nat>,
                  bytes: nat, seen: seq<bool>)
    requires low <= j < |was| && (forall k <- gone :: k < j) && Seen(cache, Live(was, low, j), seen)
    requires was[j].kind != NN_OBJ_TPM_RESERVED && was[j].kind != NN_OBJ_TPM_EVICTABLE
    requires PlanOf(cache, Live(was, low, j)) == Plan(rest, Staying(was, low, j, gone), new_, |gone|, bytes)
    ensures PlanOf(cache, Live(was, low, j + 1)) == Plan(rest, Staying(was, low, j + 1, gone), new_, |gone|, bytes)
    ensures Seen(cache, Live(was, low, j + 1), seen)
  {
    if IsLive(was[j]) {
      MemberOf(was, low, j);
      NotSeen(cache, Live(was, low, j), seen, Obj(was[j].kind, was[j].body));
      assert gone + [] == gone && new_ + [] == new_;
      Passed(cache, was, low, j, rest, new_, gone, bytes, Keep, gone);
    } else {
      PassedDead(was, low, j, gone);
    }
  }

  /** If one action cannot be carried out, the whole save cannot. */
  lemma Doomed(cache: Cache, was: seq<Item>, low: nat, j: nat, free: int, p: Plan, o: Obj)
    requires CacheOk(cache) && low <= j < |was| && IsLive(was[j]) && o == Obj(was[j].kind, was[j].body)
    requires p == PlanOf(cache, Live(was, low, j))
    requires var a := ActionOn(cache, p.rest, o);
             a != Keep && ((a.Replace? && AlignedSize(|a.body|) >= free - p.bytes) || p.outdated == cache.pcrBase + 4)
    ensures Hopeless(cache, Live(was, low, |was|), free)
  {
    MemberOf(was, low, j);
    PlanNext(cache, Live(was, low, j), o);
    UpTo(cache, was, low, j + 1);
  }

  /** What is planned for some of the items takes no more than all that is to be added. */
  lemma UpTo(cache: Cache, was: seq<Item>, low: nat, j: nat)
    requires CacheOk(cache) && low <= j <= |was|
    ensures NoLess(PlanOf(cache, Live(was, low, j)), PlanOf(cache, Live(was, low, |was|)))
    ensures PlanOf(cache, Live(was, low, j)).bytes <= AddedBytes(cache, Live(was, low, |was|))
    ensures PlanOf(cache, Live(was, low, j)).updates <= Added(cache, Live(was, low, |was|))
  {
    PlanGrows(cache, Live(was, low, j), Live(was, j, |was|));
    LiveSplit(was, low, j, |was|);
  }

  /** The outcome of a part of a save before its delimiter. */
  twostate predicate Outcome(s: Store, w: Start, f: Forecast, new rc: Code, power: nat, new power': nat)
    reads s
  {
    && (rc == Success || rc == Reboot || rc == PowerLost || rc == Invalid || rc == OutOfBounds)
    && (rc != Reboot ==> Saving(s, w) && Spent(s, rc, power, power'))
    && (rc == Reboot ==> f.hopeless) && (rc == Invalid ==> f.refused) && (rc == OutOfBounds ==> f.outside)
    && (rc == PowerLost || rc == Invalid ==> s.Free() >= w.free - f.need && New(s, w) <= f.added)
  }

  /** What is done about the object that was read, item j. */
  method Process(s: Store, cache: Cache, at: Tracker, item: Item, rest: seq<seq<uint8>>, del: seq<Place>,
                 seen: seq<bool>,
                 power: nat, ghost w: Start, ghost f: Forecast, ghost gone: seq<nat>, ghost j: nat)
    returns (rc: Code, rest': seq<seq<uint8>>, del': seq<Place>, seen': seq<bool>, power': nat, ghost gone': seq<nat>)
    requires CanSave(cache, w.log, s.low) && Foreseen(cache, w, s.low, f) && s.low <= j < |w.log|
    requires Going(s, w, at, j + 1, del, gone) && s.IsPlaceOf(at, j) && (forall k <- gone :: k < j)
    requires Planned(s, cache, w, f, j, rest, seen, gone) && item == w.log[j] && ItemOk(item)
    modifies s`headers, s`data, s`index, s`offset, s`log, s`firsts
    ensures Outcome(s, w, f, rc, power, power')
    ensures rc == Success ==> Scanned(s, cache, w, f, at, j + 1, rest', del', seen', gone')
  {
    if item.kind != NN_OBJ_TPM_RESERVED && item.kind != NN_OBJ_TPM_EVICTABLE {
      rc, rest', del', seen', power', gone' := Success, rest, del, seen, power, gone;
      OtherAsForeseen(cache, w, f, s.low, j, rest, New(s, w), gone, w.free - s.Free(), seen);
    } else {
      rc, rest', del', seen', power', gone' := ProcessKnown(s, cache, at, item, rest, del, seen, power, w, f, gone, j);
    }
  }

  /** The same for a reserved or an evictable object. */
  method ProcessKnown(s: Store, cache: Cache, at: Tracker, item: Item, rest: seq<seq<uint8>>, del: seq<Place>,
                      seen: seq<bool>,
                      power: nat, ghost w: Start, ghost f: Forecast, ghost gone: seq<nat>, ghost j: nat)
    returns (rc: Code, rest': seq<seq<uint8>>, del': seq<Place>, seen': seq<bool>, power': nat, ghost gone': seq<nat>)
    requires CanSave(cache, w.log, s.low) && Foreseen(cache, w, s.low, f) && s.low <= j < |w.log|
    requires Going(s, w, at, j + 1, del, gone) && s.IsPlaceOf(at, j) && (forall k <- gone :: k < j)
    requires Planned(s, cache, w, f, j, rest, seen, gone) && item == w.log[j] && ItemOk(item)
    requires item.kind == NN_OBJ_TPM_RESERVED || item.kind == NN_OBJ_TPM_EVICTABLE
    modifies s`headers, s`data, s`index, s`offset, s`log, s`firsts
    ensures Outcome(s, w, f, rc, power, power')
    ensures rc == Success ==> Scanned(s, cache, w, f, at, j + 1, rest', del', seen', gone')
  {
    ghost var o, low, new_, bytes := Obj(item.kind, item.body), s.low, New(s, w), w.free - s.Free();
    ghost var a := ActionOn(cache, rest, o);
    AsForeseen(cache, w, f, low, j, rest, new_, gone, bytes, a, o);
    rc, rest', del', seen', power', gone' :=
      Dispatch(s, cache, at, item, rest, del, seen, power, w, gone, j, Live(w.log, low, j), a);
  }

  /** What is foreseen of item j: the plan after it, if its action can be carried out, and no save if not. */
  lemma AsForeseen(cache: Cache, w: Start, f: Forecast, low: nat, j: nat, rest: seq<seq<uint8>>, new_: seq<Obj>,
                   gone: seq<nat>,
                   bytes: nat, a: Action, o: Obj)
    requires CanSave(cache, w.log, low) && Foreseen(cache, w, low, f) && low <= j < |w.log| && IsLive(w.log[j])
    requires (forall k <- gone :: k < j) && f.plan(j) == Plan(rest, Staying(w.log, low, j, gone), new_, |gone|, bytes)
    requires o == Obj(w.log[j].kind, w.log[j].body) && a == ActionOn(cache, rest, o)
    ensures Storable(cache, o) && Remaining(cache, rest) && Live(w.log, low, j + 1) == Live(w.log, low, j) + [o]
    ensures var gone' := gone + if a == Keep then [] else [j];
            f.plan(j + 1)
            == Plan(RestAfter(rest, o), Staying(w.log, low, j + 1, gone'), new_ + UpdateOf(a, o), |gone'|,
                    bytes + BytesOf(a))
    ensures a != Keep && ((a.Replace? && AlignedSize(|a.body|) >= w.free - bytes) || |gone| == cache.pcrBase + 4) ==>
              f.hopeless
    ensures bytes <= f.need && new_ <= f.added
    ensures (Finds(cache, o, Refused) ==> f.refused) && (Finds(cache, o, Outside) ==> f.outside)
  {
    var p := PlanFor(f, j);
    assert p == PlanOf(cache, Live(w.log, low, j)) && PlanFor(f, j + 1) == PlanOf(cache, Live(w.log, low, j + 1));
    MemberOf(w.log, low, j);
    NotMet(cache, Live(w.log, low, j));
    Passed(cache, w.log, low, j, rest, new_, gone, bytes, a, gone + if a == Keep then [] else [j]);
    if a != Keep && ((a.Replace? && AlignedSize(|a.body|) >= w.free - bytes) || |gone| == cache.pcrBase + 4) {
      Doomed(cache, w.log, low, j, w.free, p, o);
    }
  }

  lemma OtherAsForeseen(cache: Cache, w: Start, f: Forecast, low: nat, j: nat, rest: seq<seq<uint8>>, new_: seq<Obj>,
                        gone: seq<nat>, bytes: nat, seen: seq<bool>)
    requires CacheOk(cache) && Foreseen(cache, w, low, f) && low <= j < |w.log|
    requires w.log[j].kind != NN_OBJ_TPM_RESERVED && w.log[j].kind != NN_OBJ_TPM_EVICTABLE
    requires (forall k <- gone :: k < j) && Seen(cache, Live(w.log, low, j), seen)
    requires f.plan(j) == Plan(rest, Staying(w.log, low, j, gone), new_, |gone|, bytes)
    ensures f.plan(j + 1) == Plan(rest, Staying(w.log, low, j + 1, gone), new_, |gone|, bytes)
    ensures Seen(cache, Live(w.log, low, j + 1), seen)
  {
    assert PlanFor(f, j) == PlanOf(cache, Live(w.log, low, j))
        && PlanFor(f, j + 1) == PlanOf(cache, Live(w.log, low, j + 1));
    PassOther(cache, w.log, low, j, rest, new_, gone, bytes, seen);
  }

  /** process_reserved or process_object, as the type of the object has it. */
  method Dispatch(s: Store, cache: Cache, at: Tracker, item: Item, rest: seq<seq<uint8>>, del: seq<Place>,
                  seen: seq<bool>,
                  power: nat, ghost w: Start, ghost gone: seq<nat>, ghost j: nat, ghost objs: seq<Obj>, ghost a: Action)
    returns (rc: Code, rest': seq<seq<uint8>>, del': seq<Place>, seen': seq<bool>, power': nat, ghost gone': seq<nat>)
    requires Going(s, w, at, j + 1, del, gone) && s.low <= j && s.IsPlaceOf(at, j)
    requires CacheOk(cache) && Remaining(cache, rest) && Seen(cache, objs, seen)
    requires item.kind == NN_OBJ_TPM_RESERVED || item.kind == NN_OBJ_TPM_EVICTABLE
    requires Storable(cache, Obj(item.kind, item.body)) && a == ActionOn(cache, rest, Obj(item.kind, item.body))
    modifies s`headers, s`data, s`index, s`offset, s`log, s`firsts
    ensures rc == Success || rc == Reboot || rc == PowerLost || rc == Invalid || rc == OutOfBounds
    ensures rc == Invalid ==> Finds(cache, Obj(item.kind, item.body), Refused)
    ensures rc == OutOfBounds ==> Finds(cache, Obj(item.kind, item.body), Outside)
    ensures rc != Reboot ==> Saving(s, w) && Spent(s, rc, power, power')
    ensures rc == Success ==>
              var o := Obj(item.kind, item.body);
              && Going(s, w, at, j + 1, del', gone') && Seen(cache, objs + [o], seen') && rest' == RestAfter(rest, o)
              && CarriedOut(s, a, o, cache.pcrBase, w, j, gone, gone')
    ensures rc == Reboot ==> old(Impossible(s, a, del, cache.pcrBase))
    ensures rc == PowerLost || rc == Invalid ==> unchanged(s)
  {
    rest', seen' := rest, seen;
    if item.kind == NN_OBJ_TPM_RESERVED {
      rc, del', seen', power', gone' := ProcessReserved(s, cache, at, item, del, seen, power, w, gone, j, objs, a);
    } else {
      NotSeen(cache, objs, seen, Obj(item.kind, item.body));
      rc, rest', del', power', gone' := ProcessObject(s, cache, at, item, rest, del, power, w, gone, j);
    }
  }

  lemma NotMet(cache: Cache, objs: seq<Obj>)
    ensures Remaining(cache, PlanOf(cache, objs).rest)
  {
    forall i | 0 <= i < |PlanOf(cache, objs).rest|
      ensures PlanOf(cache, objs).rest[i] in cache.objects
    {
      RestCached(cache, objs, i);
    }
  }

  /** Reads the next object of those that were there. */
  method ReadOn(s: Store, at: Tracker, ghost w: Start, ghost r: nat, ghost del: seq<Place>, ghost gone: seq<nat>)
    returns (rc: Code, at': Tracker, item: Item, ghost j: nat)
    requires Going(s, w, at, r, del, gone) && (r < |w.log| ==> Visible(w.log[|w.log| - 1], false))
    requires r == |w.log| ==> s.log == w.log
    ensures rc == EndOfLog || rc == Success
    ensures rc == EndOfLog <==> r == |w.log|
    ensures rc == EndOfLog ==> Going(s, w, at', r, del, gone)
    ensures rc == Success ==>
              && r <= j == NextVisible(w.log, r, false) < |w.log| && item == w.log[j] && ItemOk(item)
              && Going(s, w, at', j + 1, del, gone) && s.IsPlaceOf(at', j) && at'.offset >= PAGE_HEADER_SIZE
  {
    rc, at', item, j := s.Next(at, false, r);
    if rc == Success {
      NextAmong(s.log, w.log, r);
    }
  }

  /** Nothing changes when items that are not given to a reader are passed over. */
  lemma StillPlanned(s: Store, cache: Cache, w: Start, f: Forecast, r: nat, j: nat, rest: seq<seq<uint8>>,
                     del: seq<Place>,
                     seen: seq<bool>, gone: seq<nat>)
    requires CacheOk(cache) && Foreseen(cache, w, s.low, f) && s.low <= r <= |w.log|
    requires r <= j == NextVisible(w.log, r, false) < |w.log|
    requires Marked(s.log, s.low, del, gone, r) && Planned(s, cache, w, f, r, rest, seen, gone)
    ensures (forall k <- gone :: k < j) && Planned(s, cache, w, f, j, rest, seen, gone)
  {
    assert PlanFor(f, j) == PlanOf(cache, Live(w.log, s.low, j))
        && PlanFor(f, r) == PlanOf(cache, Live(w.log, s.low, r));
    Skipped(w.log, s.low, r, j, gone);
    MarksBelow(s.log, s.low, del, gone, r);
  }

  /** An object that was read is dealt with. */
  method ProcessNext(s: Store, cache: Cache, at: Tracker, item: Item, rest: seq<seq<uint8>>, del: seq<Place>,
                     seen: seq<bool>, power: nat, ghost w: Start, ghost f: Forecast, ghost r: nat, ghost gone: seq<nat>,
                     ghost j: nat)
    returns (rc: Code, rest': seq<seq<uint8>>, del': seq<Place>, seen': seq<bool>, power': nat, ghost gone': seq<nat>)
    requires CanSave(cache, w.log, s.low) && Foreseen(cache, w, s.low, f) && s.low <= r <= |w.log|
    requires Marked(s.log, s.low, del, gone, r) && Planned(s, cache, w, f, r, rest, seen, gone)
    requires r <= j == NextVisible(w.log, r, false) < |w.log| && item == w.log[j] && ItemOk(item)
    requires Going(s, w, at, j + 1, del, gone) && s.IsPlaceOf(at, j)
    modifies s`headers, s`data, s`index, s`offset, s`log, s`firsts
    ensures Outcome(s, w, f, rc, power, power')
    ensures rc == Success ==> Scanned(s, cache, w, f, at, j + 1, rest', del', seen', gone')
  {
    StillPlanned(s, cache, w, f, r, j, rest, del, seen, gone);
    rc, rest', del', seen', power', gone' := Process(s, cache, at, item, rest, del, seen, power, w, f, gone, j);
  }

  /** A reader is at the fence exactly when it has read all that was there. */
  lemma AtTheFence(s: Store, at: Tracker, r: nat, w: Start, page: nat, offset: nat)
    requires Saving(s, w) && r <= |w.log| && s.At(at, r) && at.offset >= PAGE_HEADER_SIZE
    requires PAGE_HEADER_SIZE <= offset < CONFIG_FLASH_BANK_SIZE && w.end == Position(page, offset)
    ensures at.page == Some(page) && at.offset == offset <==> r == |w.log|
  {
    s.Parts();
    ChainedOrder(s.log, s.low, PageStart(s.headers[0]), s.To(), r, |w.log|);
  }

  /** Between two rounds of the loop: nothing has been read, or the reader has a place. */
  ghost predicate Looping(s: Store, cache: Cache, w: Start, f: Forecast, at: Tracker, r: nat, rest: seq<seq<uint8>>,
                          del: seq<Place>, seen: seq<bool>, gone: seq<nat>)
    reads s
  {
    Scanned(s, cache, w, f, at, r, rest, del, seen, gone) && (at.offset >= PAGE_HEADER_SIZE || s.log == w.log)
  }

  /** At the beginning of a round, entered when the reader is not at the fence: if all has been read, there
      was nothing. */
  lemma NotAtTheFence(s: Store, w: Start, at: Tracker, r: nat, del: seq<Place>, gone: seq<nat>, page: nat, offset: nat)
    requires Going(s, w, at, r, del, gone) && (at.offset >= PAGE_HEADER_SIZE || s.log == w.log)
    requires PAGE_HEADER_SIZE <= offset < CONFIG_FLASH_BANK_SIZE && w.end == Position(page, offset)
    requires at.page != Some(page) || at.offset != offset
    ensures r <= |w.log| && (r == |w.log| ==> s.log == w.log)
  {
    if at.offset >= PAGE_HEADER_SIZE {
      AtTheFence(s, at, r, w, page, offset);
    }
  }

  /** A save starts here. */
  ghost predicate Starting(s: Store, w: Start)
    reads s
  {
    s.Valid() && s.To() >= 0 && w == Start(s.log, s.To(), s.Free())
  }

  /** Nothing has been gone through. */
  lemma AtTheStart(s: Store, cache: Cache, w: Start, f: Forecast, rest: seq<seq<uint8>>, seen: seq<bool>)
    requires Starting(s, w) && CanSave(cache, w.log, s.low) && Foreseen(cache, w, s.low, f) && rest == cache.objects
    requires |seen| == |cache.pcrs| && forall i {:trigger seen[i]} :: 0 <= i < |seen| ==> !seen[i]
    ensures Looping(s, cache, w, f, EMPTY_TRACKER, s.low, rest, [], seen, [])
  {
    assert PlanFor(f, s.low) == PlanOf(cache, Live(w.log, s.low, s.low));
    s.LowInLog();
  }

  /** Reads the next object when the reader is not at the fence. */
  method Fetch(s: Store, at: Tracker, ghost page: nat, ghost offset: nat, ghost w: Start, ghost r: nat,
               ghost del: seq<Place>, ghost gone: seq<nat>)
    returns (ended: bool, at': Tracker, item: Item, ghost j: nat)
    requires Going(s, w, at, r, del, gone) && (at.offset >= PAGE_HEADER_SIZE || s.log == w.log)
    requires s.low == |w.log| || Visible(w.log[|w.log| - 1], false)
    requires PAGE_HEADER_SIZE <= offset < CONFIG_FLASH_BANK_SIZE && w.end == Position(page, offset)
    requires (at.page != Some(page) || at.offset != offset) && s.low <= r
    ensures ended <==> r == |w.log|
    ensures !ended ==>
              && r <= j == NextVisible(w.log, r, false) < |w.log| && item == w.log[j] && ItemOk(item)
              && Going(s, w, at', j + 1, del, gone) && s.IsPlaceOf(at', j) && at'.offset >= PAGE_HEADER_SIZE
  {
    NotAtTheFence(s, w, at, r, del, gone, page, offset);
    var rc;
    rc, at', item, j := ReadOn(s, at, w, r, del, gone);
    ended := rc == EndOfLog;
  }

  /** A round of the loop, entered when the reader is not at the fence: an object is read and dealt with, or
      there is none. */
  method Turn(s: Store, cache: Cache, at: Tracker, rest: seq<seq<uint8>>, del: seq<Place>, seen: seq<bool>, power: nat,
              ghost page: nat, ghost offset: nat, ghost w: Start, ghost f: Forecast, ghost r: nat, ghost gone: seq<nat>)
    returns (ended: bool, rc: Code, at': Tracker, rest': seq<seq<uint8>>, del': seq<Place>, seen': seq<bool>,
             power': nat,
             ghost r': nat, ghost gone': seq<nat>)
    requires CanSave(cache, w.log, s.low) && Foreseen(cache, w, s.low, f)
    requires Looping(s, cache, w, f, at, r, rest, del, seen, gone)
    requires PAGE_HEADER_SIZE <= offset < CONFIG_FLASH_BANK_SIZE && w.end == Position(page, offset)
    requires at.page != Some(page) || at.offset != offset
    modifies s`headers, s`data, s`index, s`offset, s`log, s`firsts
    ensures ended ==> r == |w.log| && unchanged(s)
    ensures !ended ==> Outcome(s, w, f, rc, power, power')
    ensures !ended && rc == Success ==> r < r' <= |w.log| && Looping(s, cache, w, f, at', r', rest', del', seen', gone')
  {
    rc, rest', del', seen', power', gone' := Success, rest, del, seen, power, gone;
    var item;
    ghost var j;
    ended, at', item, j := Fetch(s, at, page, offset, w, r, del, gone);
    r' := j + 1;
    if !ended {
      rc, rest', del', seen', power', gone' := ProcessNext(s, cache, at', item, rest, del, seen, power, w, f, r,
                                                           gone, j);
    }
  }

  /** The loop of new_nvmem_save_: goes through all that was there. */
  method ScanAll(s: Store, cache: Cache, power: nat, ghost w: Start, ghost f: Forecast)
    returns (rc: Code, at: Tracker, rest: seq<seq<uint8>>, del: seq<Place>, seen: seq<bool>, power': nat,
             ghost gone: seq<nat>)
    requires Starting(s, w) && CanSave(cache, w.log, s.low) && Foreseen(cache, w, s.low, f)
    modifies s`headers, s`data, s`index, s`offset, s`log, s`firsts
    ensures Outcome(s, w, f, rc, power, power')
    ensures rc == Success ==> Scanned(s, cache, w, f, at, |w.log|, rest, del, seen, gone)
  {
    var page, offset := s.headers[s.index].number, s.offset;
    ghost var r := s.low;
    rc, at, rest, del, power', gone := Success, EMPTY_TRACKER, cache.objects, [], power, [];
    seen := seq(|cache.pcrs|, _ => false);
    AtTheStart(s, cache, w, f, rest, seen);
    while at.page != Some(page) || at.offset != offset
      invariant rc == Success && Looping(s, cache, w, f, at, r, rest, del, seen, gone)
      invariant power' + |s.log| == power + |w.log|
      decreases |w.log| - r
    {
      var ended, code, at', rest', del', seen', left;
      ghost var r', gone';
      ended, code, at', rest', del', seen', left, r', gone' :=
        Turn(s, cache, at, rest, del, seen, power', page, offset, w, f, r, gone);
      if ended {
        return;
      }
      rc, at, rest, del, seen, power', r, gone := code, at', rest', del', seen', left, r', gone';
      if rc != Success {
        return;
      }
    }
    AtTheFence(s, at, r, w, page, offset);
  }

  // ----- the objects that were not met

  lemma Regroup<T>(a: seq<T>, b: seq<T>, c: seq<T>)
    ensures a + (b + c) == a + b + c
  {
  }

  /** The outcome of adding some objects, when free bytes were left and all of them need some. */
  twostate predicate Adding(s: Store, w: Start, new rc: Code, power: nat, new power': nat, free: int, need: nat)
    reads s
  {
    && (rc == Success || rc == Reboot || rc == PowerLost)
    && (rc != Reboot ==> Saving(s, w) && Spent(s, rc, power, power') && s.Free() >= free - need)
    && (rc == Reboot ==> need >= free && need > 0)
  }

  /** save_new_object, for each object that was not met. */
  method SaveRest(s: Store, cache: Cache, rest: seq<seq<uint8>>, power: nat, ghost w: Start)
    returns (rc: Code, power': nat)
    requires Saving(s, w) && CacheOk(cache) && Remaining(cache, rest)
    modifies s`headers, s`data, s`index, s`offset, s`log, s`firsts
    ensures Adding(s, w, rc, power, power', old(s.Free()), BodyBytes(rest, |rest|))
    ensures rc == PowerLost ==> New(s, w) <= old(New(s, w)) + Evictables(rest, |rest|)
    ensures rc == Success ==>
              && New(s, w) == old(New(s, w)) + Evictables(rest, |rest|)
              && s.Free() == old(s.Free()) - BodyBytes(rest, |rest|)
  {
    rc, power' := Success, power;
    ghost var new_, free := New(s, w), s.Free();
    assert new_ + [] == new_;
    for i := 0 to |rest|
      invariant rc == Success && Saving(s, w) && power' + |s.log| == power + |old(s.log)|
      invariant New(s, w) == new_ + Evictables(rest, i) && s.Free() == free - BodyBytes(rest, i)
    {
      Regroup(new_, Evictables(rest, i), [Obj(NN_OBJ_TPM_EVICTABLE, rest[i])]);
      EvictablesPrefix(new_, rest, i, |rest|);
      BodyBytesGrow(rest, i, |rest|);
      BodyBytesGrow(rest, i + 1, |rest|);
      rc, power' := SaveNewObject(s, cache, rest[i], power', w);
      if rc != Success {
        return;
      }
    }
  }

  /** save_new_object */
  method SaveNewObject(s: Store, cache: Cache, body: seq<uint8>, power: nat, ghost w: Start)
    returns (rc: Code, power': nat)
    requires Saving(s, w) && CacheOk(cache) && body in cache.objects
    modifies s`headers, s`data, s`index, s`offset, s`log, s`firsts
    ensures Adding(s, w, rc, power, power', old(s.Free()), AlignedSize(|body|))
    ensures rc == PowerLost ==> unchanged(s)
    ensures rc == Success ==>
              && New(s, w) == old(New(s, w)) + [Obj(NN_OBJ_TPM_EVICTABLE, body)]
              && s.Free() == old(s.Free()) - AlignedSize(|body|)
  {
    s.LowInLog();
    assert Fits(body);
    rc, power' := Put(s, NN_OBJ_TPM_EVICTABLE, 0, body, power, w, EMPTY_TRACKER, s.low);
  }

  /** The bitmap tells which PCRs are new. */
  ghost predicate Unseen(cache: Cache, seen: seq<bool>, isNew: seq<bool>) {
    && |seen| == |isNew| == |cache.pcrs|
    && (forall i: nat {:trigger IsUnseen(cache, seen, isNew, i)} :: i < |isNew| ==> IsUnseen(cache, seen, isNew, i))
  }

  ghost predicate IsUnseen(cache: Cache, seen: seq<bool>, isNew: seq<bool>, i: nat)
    requires i < |seen| == |isNew| == |cache.pcrs|
  {
    isNew[i] <==> !seen[i] && !IsEmpty(cache.pcrs[i])
  }

  lemma SeenOrNew(cache: Cache, objs: seq<Obj>, seen: seq<bool>)
    requires Seen(cache, objs, seen)
    ensures Unseen(cache, seen, NewPcrs(cache, objs))
  {
    forall i: nat | i < |seen|
      ensures IsUnseen(cache, seen, NewPcrs(cache, objs), i)
    {
      IsNewPcr(cache, objs, i);
      assert seen[i] <==> Mentioned(objs, cache.pcrBase + i);
    }
  }

  lemma IsNewPcr(cache: Cache, objs: seq<Obj>, i: nat)
    requires i < |cache.pcrs|
    ensures NewPcrs(cache, objs)[i] <==> !Mentioned(objs, cache.pcrBase + i) && !IsEmpty(cache.pcrs[i])
  {
  }

  /** maybe_save_pcr, for each PCR that was not met. */
  method SavePcrs(s: Store, cache: Cache, seen: seq<bool>, power: nat, ghost w: Start, ghost isNew: seq<bool>,
                  ghost bodies: seq<seq<uint8>>, ghost need: nat)
    returns (rc: Code, power': nat)
    requires Saving(s, w) && CacheOk(cache) && Unseen(cache, seen, isNew) && bodies == PcrBodies(cache)
    requires need == PcrBytes(bodies, isNew, |seen|)
    modifies s`headers, s`data, s`index, s`offset, s`log, s`firsts
    ensures Adding(s, w, rc, power, power', old(s.Free()), need)
    ensures rc == PowerLost ==> New(s, w) <= old(New(s, w)) + PcrObjs(bodies, isNew, |seen|)
    ensures rc == Success ==>
              New(s, w) == old(New(s, w)) + PcrObjs(bodies, isNew, |seen|) && s.Free() == old(s.Free()) - need
  {
    rc, power' := Success, power;
    ghost var new_, free := New(s, w), s.Free();
    assert new_ + [] == new_;
    for i := 0 to |seen|
      invariant rc == Success && Saving(s, w) && power' + |s.log| == power + |old(s.log)|
      invariant New(s, w) == new_ + PcrObjs(bodies, isNew, i) && s.Free() == free - PcrBytes(bodies, isNew, i)
    {
      Regroup(new_, PcrObjs(bodies, isNew, i), PcrObj(bodies[i], isNew[i]));
      PcrObjsPrefix(new_, bodies, isNew, i, |seen|);
      PcrBytesGrow(bodies, isNew, i, |seen|);
      PcrBytesGrow(bodies, isNew, i + 1, |seen|);
      rc, power' := MaybeSavePcr(s, cache, seen, i, power', w, isNew, bodies);
      if rc != Success {
        return;
      }
    }
  }

  /** maybe_save_pcr */
  method MaybeSavePcr(s: Store, cache: Cache, seen: seq<bool>, i: nat, power: nat, ghost w: Start,
                      ghost isNew: seq<bool>, ghost bodies: seq<seq<uint8>>)
    returns (rc: Code, power': nat)
    requires Saving(s, w) && CacheOk(cache) && Unseen(cache, seen, isNew) && bodies == PcrBodies(cache) && i < |seen|
    modifies s`headers, s`data, s`index, s`offset, s`log, s`firsts
    ensures Adding(s, w, rc, power, power', old(s.Free()), PcrSize(bodies[i], isNew[i]))
    ensures rc == Success ==>
              && New(s, w) == old(New(s, w)) + PcrObj(bodies[i], isNew[i])
              && s.Free() == old(s.Free()) - PcrSize(bodies[i], isNew[i])
    ensures rc == PowerLost ==> unchanged(s)
  {
    assert IsUnseen(cache, seen, isNew, i);
    if !seen[i] && !IsEmpty(cache.pcrs[i]) {
      s.LowInLog();
      rc, power' := Put(s, NN_OBJ_TPM_RESERVED, 0, PcrBody(cache, i), power, w, EMPTY_TRACKER, s.low);
    } else {
      rc, power' := Success, power;
      assert New(s, w) + [] == New(s, w);
    }
  }

  /** The objects and PCRs that were not met. */
  method SaveUnmet(s: Store, cache: Cache, rest: seq<seq<uint8>>, seen: seq<bool>, power: nat, ghost w: Start,
                   ghost isNew: seq<bool>, ghost bodies: seq<seq<uint8>>)
    returns (rc: Code, power': nat)
    requires Saving(s, w) && CacheOk(cache) && Remaining(cache, rest) && Unseen(cache, seen, isNew)
    requires bodies == PcrBodies(cache)
    modifies s`headers, s`data, s`index, s`offset, s`log, s`firsts
    ensures Adding(s, w, rc, power, power', old(s.Free()), BodyBytes(rest, |rest|) + PcrBytes(bodies, isNew, |seen|))
    ensures rc == PowerLost ==>
              New(s, w) <= old(New(s, w)) + Evictables(rest, |rest|) + PcrObjs(bodies, isNew, |seen|)
    ensures rc == Success ==>
              && New(s, w) == old(New(s, w)) + Evictables(rest, |rest|) + PcrObjs(bodies, isNew, |seen|)
              && s.Free() == old(s.Free()) - (BodyBytes(rest, |rest|) + PcrBytes(bodies, isNew, |seen|))
  {
    rc, power' := SaveRest(s, cache, rest, power, w);
    if rc == Success {
      rc, power' := SavePcrs(s, cache, seen, power', w, isNew, bodies, PcrBytes(bodies, isNew, |seen|));
    }
  }

  /** What is foreseen, when all that was there has been gone through. */
  lemma AllForeseen(cache: Cache, w: Start, low: nat, p: Plan, objs: seq<Obj>)
    requires CacheOk(cache) && low <= |w.log| && objs == Live(w.log, low, |w.log|)
    requires p == Forecasted(cache, w, low).plan(|w.log|)
    ensures p == PlanOf(cache, objs) && Remaining(cache, p.rest)
    ensures Added(cache, objs)
              == p.updates + Evictables(p.rest, |p.rest|) + AllPcrs(cache, objs)
    ensures var f := Forecasted(cache, w, low);
            && f.need
                == p.bytes
                   + (BodyBytes(p.rest, |p.rest|) + PcrBytes(PcrBodies(cache), NewPcrs(cache, objs), |cache.pcrs|))
            && (f.need >= w.free && f.need > 0 ==> f.hopeless)
  {
    NotMet(cache, objs);
  }

  /** All new instances have been added, and nothing ended the save. */
  ghost predicate AllAdded(s: Store, cache: Cache, w: Start, f: Forecast, del: seq<Place>, gone: seq<nat>)
    requires s.low <= |w.log|
    reads s
  {
    && Saving(s, w) && Marked(s.log, s.low, del, gone, |w.log|) && New(s, w) == f.added && s.Free() == w.free - f.need
    && Staying(w.log, s.low, |w.log|, gone) == f.plan(|w.log|).stays
    && |gone| == f.plan(|w.log|).outdated <= cache.pcrBase + 4 && !f.refused && !f.outside
  }

  /** The part of new_nvmem_save_ before the delimiter: all new instances are added. */
  method AddAll(s: Store, cache: Cache, power: nat, ghost w: Start, ghost f: Forecast)
    returns (rc: Code, del: seq<Place>, power': nat, ghost gone: seq<nat>)
    requires Starting(s, w) && CanSave(cache, w.log, s.low) && f == Forecasted(cache, w, s.low)
    modifies s`headers, s`data, s`index, s`offset, s`log, s`firsts
    ensures Outcome(s, w, f, rc, power, power')
    ensures rc == Success ==> AllAdded(s, cache, w, f, del, gone)
  {
    ghost var objs := Live(w.log, s.low, |w.log|);
    var at, rest, seen;
    Foresee(cache, w, s.low);
    AllForeseen(cache, w, s.low, f.plan(|w.log|), objs);
    rc, at, rest, del, seen, power', gone := ScanAll(s, cache, power, w, f);
    if rc == Success {
      ghost var log := s.log;
      SeenOrNew(cache, objs, seen);
      rc, power' := SaveUnmet(s, cache, rest, seen, power', w, NewPcrs(cache, objs), PcrBodies(cache));
      if rc == Success {
        MarksKept(log, s.log, w.log, s.low, del, gone, |w.log|);
      }
    }
  }

  // ----- the end of a save

  /** Deletes the candidates. */
  method DeleteAll(s: Store, del: seq<Place>, ghost gone: seq<nat>, ghost n: nat)
    requires s.Valid() && Marked(s.log, s.low, del, gone, n)
    modifies s`data, s`log
    ensures s.Valid() && |s.log| == |old(s.log)|
    ensures forall k {:trigger s.log[k]} :: 0 <= k < |s.log| ==>
              s.log[k] == if k in gone then Deleted(old(s.log)[k]) else old(s.log)[k]
  {
    for i := 0 to |del|
      invariant s.Valid() && |s.log| == |old(s.log)|
      invariant forall k {:trigger s.log[k]} :: 0 <= k < |s.log| ==>
                  s.log[k] == if k in gone[..i] then Deleted(old(s.log)[k]) else old(s.log)[k]
    {
      assert s.low <= gone[i] < n;
      s.Invalidate(del[i].page, del[i].offset, gone[i]);
      assert gone[..i + 1] == gone[..i] + [gone[i]];
    }
    assert gone[..|del|] == gone;
  }

  /** What is live when the candidates are deleted. */
  lemma LiveLeft(log: seq<Item>, log': seq<Item>, was: seq<Item>, low: nat, gone: seq<nat>)
    requires low <= |was| && was <= log && |log'| == |log| && forall k <- gone :: k < |was|
    requires forall k {:trigger log'[k]} :: 0 <= k < |log'| ==> log'[k] == if k in gone then Deleted(log[k]) else log[k]
    ensures Live(log', low, |log'|) == Staying(was, low, |was|, gone) + Live(log, |was|, |log|)
  {
    LiveSplit(log', low, |was|, |log'|);
    LivePrefix(log', log, |was|, |log|);
    forall k | low <= k < |was|
      ensures log'[k] == if k in gone then Deleted(was[k]) else was[k]
    {
      assert log[k] == was[k];
    }
    StayingIsLive(was, log', low, |was|, gone);
  }

  /** A controller that has not moved has not written anything. */
  lemma NothingAdded(s: Store, w: Start)
    requires Saving(s, w)
    ensures s.To() == w.end <==> |s.log| == |w.log|
    ensures |s.log| == |w.log| ==> s.log == w.log
  {
    if |s.log| > |w.log| {
      s.Parts();
      ChainedItem(s.log, s.low, PageStart(s.headers[0]), s.To(), |w.log|);
    }
  }

  /** The end of new_nvmem_save_: a delimiter closes the new instances, the candidates are deleted, and
      the delimiter is finalized. */
  method Commit(s: Store, page: nat, offset: nat, del: seq<Place>, ghost w: Start, ghost gone: seq<nat>,
                ghost after: seq<Obj>)
    returns (rc: Code)
    requires Saving(s, w) && Marked(s.log, s.low, del, gone, |w.log|) && w.end == Position(page, offset)
    requires after == Staying(w.log, s.low, |w.log|, gone) + New(s, w)
    requires PAGE_HEADER_SIZE <= offset < CONFIG_FLASH_BANK_SIZE
    requires s.low == |w.log| || IsFinalized(w.log[|w.log| - 1])
    modifies s`headers, s`data, s`index, s`offset, s`log, s`firsts
    ensures rc == if (del == [] && |old(s.log)| == |w.log|) || CONTAINER_SIZE < old(s.Free()) then Success else Reboot
    ensures rc == Success ==> s.Valid() && EndsFinal(s) && s.low <= |s.log| && LiveObjs(s) == after
  {
    ghost var log := s.log;
    NothingAdded(s, w);
    if del != [] || offset != s.offset || page != s.headers[s.index].number {
      rc := Close(s, del, w, gone);
    } else {
      rc := Success;
      LiveLeft(log, log, w.log, s.low, gone);
    }
  }

  method Close(s: Store, del: seq<Place>, ghost w: Start, ghost gone: seq<nat>) returns (rc: Code)
    requires Saving(s, w) && Marked(s.log, s.low, del, gone, |w.log|)
    modifies s`headers, s`data, s`index, s`offset, s`log, s`firsts
    ensures rc == if CONTAINER_SIZE < old(s.Free()) then Success else Reboot
    ensures rc == Success ==>
              && s.Valid() && EndsFinal(s) && s.low <= |s.log|
              && LiveObjs(s) == Staying(w.log, s.low, |w.log|, gone) + old(New(s, w))
  {
    ghost var log := s.log;
    var page, offset;
    MarksBelow(s.log, s.low, del, gone, |w.log|);
    rc, page, offset := Open(s);
    if rc != Success {
      return;
    }
    ghost var log' := s.log;
    MarksKept(log, log', w.log, s.low, del, gone, |w.log|);
    DelimiterNotLive(log, log', |w.log|);
    DeleteAll(s, del, gone, |w.log|);
    LiveLeft(log', s.log, w.log, s.low, gone);
    assert |log| !in gone;
    Finish(s, page, offset);
  }

  lemma DelimiterNotLive(log: seq<Item>, log': seq<Item>, n: nat)
    requires n <= |log| && log <= log' && |log'| == |log| + 1 && !IsLive(log'[|log|])
    ensures Live(log', n, |log'|) == Live(log, n, |log|)
  {
    OneLonger(log, log');
    LiveAppend(log, n, log'[|log|]);
  }

  lemma OneLonger<T>(a: seq<T>, b: seq<T>)
    requires a <= b && |b| == |a| + 1
    ensures b == a + [b[|a|]]
  {
  }

  /** The place where the objects that are there end. */
  method Fence(s: Store) returns (page: nat, offset: nat)
    requires s.Valid()
    ensures s.To() == Position(page, offset) >= 0 && PAGE_HEADER_SIZE <= offset < CONFIG_FLASH_BANK_SIZE
  {
    s.LowInLog();
    page, offset := s.headers[s.index].number, s.offset;
  }

  /** What is known when a save starts. */
  lemma Outlook(cache: Cache, w: Start, low: nat, objs: seq<Obj>) returns (f: Forecast)
    requires CacheOk(cache) && low <= |w.log| && objs == Live(w.log, low, |w.log|)
    ensures f == Forecasted(cache, w, low) && Prospects(cache, w, f)
    ensures f.added == Added(cache, objs) && f.need == AddedBytes(cache, objs)
    ensures f.plan(|w.log|).stays + f.added == AfterSave(cache, objs)
    ensures f.hopeless == Hopeless(cache, objs, w.free)
    ensures f.refused == Occurs(cache, objs, Refused) && f.outside == Occurs(cache, objs, Outside)
  {
    f := Forecasted(cache, w, low);
    AddedNone(cache, objs);
  }

  /** A forecast is hopeless if something is to change and there is no room, or too much is to be deleted. */
  ghost predicate Prospects(cache: Cache, w: Start, f: Forecast) {
    var outdated := f.plan(|w.log|).outdated;
    && (f.added == [] <==> f.need == 0)
    && (f.hopeless <==>
        || ((f.need > 0 || outdated > 0) && f.need + CONTAINER_SIZE >= w.free)
        || outdated > cache.pcrBase + 4)
  }

  /** There is an object for each container that was added. */
  lemma NewLength(s: Store, w: Start)
    requires Saving(s, w)
    ensures |New(s, w)| == |s.log| - |w.log|
  {
    AllLive(s.log, |w.log|, |s.log|);
  }

  /** How a save ends, as it has been foreseen. */
  ghost predicate Foretold(f: Forecast, rc: Code, power: nat) {
    match rc
    case Success => !f.hopeless && !f.refused && !f.outside && |f.added| < power
    case Reboot => f.hopeless
    case Invalid => f.refused
    case OutOfBounds => f.outside
    case PowerLost => power <= |f.added|
    case _ => false
  }

  /** And what it leaves, when it is lost or refused. */
  ghost predicate Leaves(s: Store, w: Start, f: Forecast, rc: Code, power: nat)
    reads s
  {
    && Saving(s, w) && s.Free() >= w.free - f.need && New(s, w) <= f.added
    && (rc == PowerLost ==> power == |New(s, w)|)
  }

  /** All of a save, as it was foreseen. */
  method SaveForeseen(s: Store, cache: Cache, power: nat, ghost w: Start, ghost f: Forecast) returns (rc: Code)
    requires Starting(s, w) && CanSave(cache, w.log, s.low) && f == Forecasted(cache, w, s.low)
    requires Prospects(cache, w, f)
    modifies s`headers, s`data, s`index, s`offset, s`log, s`firsts
    ensures rc == Success ==>
              s.Valid() && EndsFinal(s) && s.low <= |s.log| && LiveObjs(s) == f.plan(|w.log|).stays + f.added
    ensures Foretold(f, rc, power)
    ensures rc == PowerLost || rc == Invalid ==> Leaves(s, w, f, rc, power)
  {
    var page, offset := Fence(s);
    var del, left;
    ghost var gone;
    rc, del, left, gone := AddAll(s, cache, power, w, f);
    if rc != Reboot {
      NewLength(s, w);
    }
    if rc == Success {
      if left == 0 {
        return PowerLost;
      }
      rc := Commit(s, page, offset, del, w, gone, f.plan(|w.log|).stays + f.added);
    }
  }

  /** Nothing keeps a save from being done. */
  ghost predicate Succeeds(cache: Cache, objs: seq<Obj>, power: nat)
    requires CacheOk(cache)
  {
    !Occurs(cache, objs, Refused) && !Occurs(cache, objs, Outside) && |Added(cache, objs)| < power
  }

  /** Why a save is not done: an object is refused, or has the number that nothing is known of, or power is
      lost before the delimiter. */
  ghost predicate Fails(cache: Cache, objs: seq<Obj>, power: nat, rc: Code)
    requires CacheOk(cache)
  {
    match rc
    case Invalid => Occurs(cache, objs, Refused)
    case OutOfBounds => Occurs(cache, objs, Outside)
    case PowerLost => power <= |Added(cache, objs)|
    case _ => false
  }

  /** What a save leaves that lost power or was refused: the objects that were there, which a finalized
      delimiter closes, and some of those that were to be added, one for each container that power lasted for. */
  ghost predicate Unclosed(s: Store, w: Start, cache: Cache, objs: seq<Obj>, rc: Code, power: nat)
    requires CacheOk(cache)
    reads s
  {
    && Saving(s, w) && (s.low == |w.log| || IsFinalized(w.log[|w.log| - 1])) && Live(w.log, s.low, |w.log|) == objs
    && New(s, w) <= Added(cache, objs) && (rc == PowerLost ==> |New(s, w)| == power)
    && s.Free() >= w.free - AddedBytes(cache, objs)
  }

  lemma EndsAs(cache: Cache, w: Start, objs: seq<Obj>, f: Forecast, rc: Code, power: nat)
    requires CacheOk(cache) && f.added == Added(cache, objs) && f.hopeless == Hopeless(cache, objs, w.free)
    requires f.refused == Occurs(cache, objs, Refused) && f.outside == Occurs(cache, objs, Outside)
    requires Foretold(f, rc, power)
    ensures rc == Success <==> !Hopeless(cache, objs, w.free) && Succeeds(cache, objs, power)
    ensures rc != Success ==> if rc == Reboot then Hopeless(cache, objs, w.free) else Fails(cache, objs, power, rc)
  {
  }

  /** The objects to be saved, and all that is known of how that ends. */
  method SaveAs(s: Store, cache: Cache, power: nat, ghost w: Start, ghost objs: seq<Obj>) returns (rc: Code)
    requires Starting(s, w) && CanSave(cache, w.log, s.low) && objs == Live(w.log, s.low, |w.log|)
    modifies s`headers, s`data, s`index, s`offset, s`log, s`firsts
    ensures rc == Success ==> s.Valid() && EndsFinal(s) && s.low <= |s.log| && LiveObjs(s) == AfterSave(cache, objs)
    ensures rc == Success <==> !Hopeless(cache, objs, w.free) && Succeeds(cache, objs, power)
    ensures rc != Success ==> if rc == Reboot then Hopeless(cache, objs, w.free) else Fails(cache, objs, power, rc)
    ensures rc == PowerLost || rc == Invalid ==> Unclosed(s, w, cache, objs, rc, power)
  {
    ghost var f := Outlook(cache, w, s.low, objs);
    rc := SaveForeseen(s, cache, power, w, f);
    EndsAs(cache, w, objs, f, rc, power);
  }

  /** new_nvmem_save_, once there is room to write.  It is done exactly if it is not hopeless, no object keeps
      it from being done, and power lasts for the new containers and a delimiter. */
  method SaveCache(s: Store, cache: Cache, power: nat) returns (rc: Code, ghost w: Start)
    requires s.Valid() && CanSave(cache, s.log, s.low)
    modifies s`headers, s`data, s`index, s`offset, s`log, s`firsts
    ensures rc == Success <==>
              !Hopeless(cache, old(LiveObjs(s)), old(s.Free())) && Succeeds(cache, old(LiveObjs(s)), power)
    ensures rc == Success ==>
              var before := old(LiveObjs(s));
              && s.Valid() && EndsFinal(s) && s.low <= |s.log|
              && LiveObjs(s) == AfterSave(cache, before) && SavedAs(cache, before, LiveObjs(s))
    ensures rc != Success ==>
              if rc == Reboot then Hopeless(cache, old(LiveObjs(s)), old(s.Free()))
              else Fails(cache, old(LiveObjs(s)), power, rc)
    ensures w == Start(old(s.log), old(s.To()), old(s.Free()))
    ensures rc == PowerLost || rc == Invalid ==> Unclosed(s, w, cache, old(LiveObjs(s)), rc, power)
  {
    s.LowInLog();
    ghost var objs := LiveObjs(s);
    w := Start(s.log, s.To(), s.Free());
    rc := SaveAs(s, cache, power, w, objs);
    Saved(cache, objs);
  }

  /** After an interrupted save, the objects since the last finalized delimiter are those it added. */
  lemma Interrupted(s: Store, w: Start)
    requires Saving(s, w) && (s.low == |w.log| || IsFinalized(w.log[|w.log| - 1]))
    ensures AfterFinal(s.log, s.low, |s.log|) == |w.log|
    ensures s.low < |s.log| && IsDelimiter(s.log[|s.log| - 1]) ==> IsFinalized(s.log[|s.log| - 1])
    ensures Live(s.log, s.low, |w.log|) == Live(w.log, s.low, |w.log|)
  {
    FinalStays(s.log, s.low, |w.log|, |s.log|);
    LivePrefix(s.log, w.log, s.low, |w.log|);
  }

  /** Items from the n-th on hold some objects, but are deleted. */
  ghost predicate Leftover(log: seq<Item>, n: nat, objs: seq<Obj>) {
    && n + |objs| <= |log|
    && (forall k {:trigger objs[k]} :: 0 <= k < |objs| ==>
          var e := log[n + k];
          e.kind == NN_OBJ_OLD_COPY && e.copy == objs[k].kind && e.body == objs[k].body)
  }

  lemma LeftAsDeleted(log: seq<Item>, log': seq<Item>, n: nat)
    requires n <= |log| && |log'| == |log| + 1 && DeletedFrom(log'[..|log|], log, n, |log|)
    requires forall k {:trigger log[k]} :: n <= k < |log| ==> IsLive(log[k]) && log[k].copy == log[k].kind
    ensures Leftover(log', n, Live(log, n, |log|))
  {
    AllLive(log, n, |log|);
    forall k {:trigger Live(log, n, |log|)[k]} | 0 <= k < |log| - n
      ensures log'[n + k] == Deleted(log[n + k])
    {
      assert log'[..|log|][n + k] == log'[n + k];
    }
  }

  /** The startup after a save that was interrupted before its delimiter: the objects in flash are those
      before the save, if there is room for a delimiter, and the containers that were added are deleted. */
  method UndoSave(s: Store, ghost w: Start) returns (v: Verdict)
    requires Saving(s, w) && (s.low == |w.log| || IsFinalized(w.log[|w.log| - 1]))
    modifies s`headers, s`data, s`index, s`offset, s`log, s`firsts
    ensures v == Consistent || (v == Rebooted && old(s.Free()) <= CONTAINER_SIZE)
    ensures v == Consistent ==> s.Valid() && EndsFinal(s) && LiveObjs(s) == Live(w.log, s.low, |w.log|)
    ensures v == Consistent && |w.log| < |old(s.log)| ==>
              |s.log| == |old(s.log)| + 1 && Leftover(s.log, |w.log|, old(New(s, w)))
  {
    ghost var log := s.log;
    Interrupted(s, w);
    v := Recover(s);
    if v == Consistent && |w.log| < |log| {
      LeftAsDeleted(log, s.log, |w.log|);
    }
  }

  lemma PrefixIs<T>(a: seq<T>, b: seq<T>)
    requires a <= b
    ensures a == b[..|a|]
  {
  }

  /** The same for what a save leaves: the containers for which power lasted are there, but deleted. */
  method RestartAfterSave(s: Store, ghost w: Start, ghost cache: Cache, ghost objs: seq<Obj>, ghost rc: Code,
                          ghost power: nat)
    returns (v: Verdict)
    requires CacheOk(cache) && Unclosed(s, w, cache, objs, rc, power)
    modifies s`headers, s`data, s`index, s`offset, s`log, s`firsts
    ensures v == Consistent || (v == Rebooted && TooTight(cache, objs, w.free))
    ensures v == Consistent ==> s.Valid() && EndsFinal(s) && LiveObjs(s) == objs
    ensures v == Consistent && rc == PowerLost && power > 0 ==>
              |s.log| == |w.log| + power + 1 && Leftover(s.log, |w.log|, Added(cache, objs)[..power])
  {
    NewLength(s, w);
    PrefixIs(New(s, w), Added(cache, objs));
    v := UndoSave(s, w);
  }

  /** A save that loses power, or is refused, before its delimiter, and the startup after it: with room for
      all that was to be added, startup succeeds, and the objects in flash are those before the save. */
  method SaveAndRestart(s: Store, cache: Cache, power: nat) returns (rc: Code, v: Verdict)
    requires s.Valid() && CanSave(cache, s.log, s.low)
    modifies s`headers, s`data, s`index, s`offset, s`log, s`firsts
    ensures rc == Success <==>
              !Hopeless(cache, old(LiveObjs(s)), old(s.Free())) && Succeeds(cache, old(LiveObjs(s)), power)
    ensures rc == Success ==> s.Valid() && SavedAs(cache, old(LiveObjs(s)), LiveObjs(s))
    ensures rc != Success ==>
              if rc == Reboot then Hopeless(cache, old(LiveObjs(s)), old(s.Free()))
              else Fails(cache, old(LiveObjs(s)), power, rc)
    ensures rc == PowerLost || rc == Invalid ==>
              v == Consistent || (v == Rebooted && TooTight(cache, old(LiveObjs(s)), old(s.Free())))
    ensures v == Consistent && (rc == PowerLost || rc == Invalid) ==>
              s.Valid() && EndsFinal(s) && LiveObjs(s) == old(LiveObjs(s))
    // The containers for which power lasted are there, but deleted.
    ensures v == Consistent && rc == PowerLost && power > 0 ==>
              && |s.log| == |old(s.log)| + power + 1
              && Leftover(s.log, |old(s.log)|, Added(cache, old(LiveObjs(s)))[..power])
  {
    v := Consistent;
    ghost var objs := LiveObjs(s);
    ghost var w;
    rc, w := SaveCache(s, cache, power);
    if rc == PowerLost || rc == Invalid {
      v := RestartAfterSave(s, w, cache, objs, rc, power);
    }
  }

  /** A cache without objects and PCRs, and a reserved object in flash with the number after the last PCR:
      nothing is to be added or deleted, and nothing refused. */
  lemma OneBeyond(cache: Cache, o: Obj)
    requires cache.objects == [] && cache.pcrs == [] && cache.reserved == map[] && cache.pcrBase < 256
    requires o == Obj(NN_OBJ_TPM_RESERVED, [cache.pcrBase as uint8])
    ensures CacheOk(cache) && Added(cache, [o]) == [] && (forall free :: !Hopeless(cache, [o], free))
    ensures !Occurs(cache, [o], Refused) && Occurs(cache, [o], Outside)
  {
    PlanNext(cache, [], o);
    assert [] + [o] == [o];
    assert PlanOf(cache, [o]).rest == [] && PlanOf(cache, [o]).updates == [];
    AddedNone(cache, [o]);
    assert [o][0] == o;
  }

  method StoreBeyond(coder: Coder, padding: nat -> seq<uint8>, number: uint8) returns (s: Store)
    requires CoderOk(coder) && forall p :: |padding(p)| == 3
    ensures fresh(s) && s.Valid() && EndsFinal(s) && s.low <= |s.log|
    ensures LiveObjs(s) == [Obj(NN_OBJ_TPM_RESERVED, [number])]
  {
    s := new Store(coder, padding, 10);
    var rc := s.SaveContainer(NN_OBJ_TPM_RESERVED, 0, [number]);
    ghost var log := s.log;
    assert Live(log, 0, 1) == Live(log, 0, 0) + [Obj(NN_OBJ_TPM_RESERVED, [number])];
    rc := s.AddFinalDelimiter();
    LiveAppend(log, 0, s.log[1]);
  }

  /** So the object is not refused, as those with other unknown numbers are. */
  method SaveBeyond(coder: Coder, padding: nat -> seq<uint8>, pcrBase: nat) returns (rc: Code)
    requires CoderOk(coder) && (forall p :: |padding(p)| == 3) && pcrBase < 256
    ensures rc == OutOfBounds
  {
    var s := StoreBeyond(coder, padding, pcrBase as uint8);
    var cache := Cache([], map[], [], pcrBase);
    OneBeyond(cache, Obj(NN_OBJ_TPM_RESERVED, [pcrBase as uint8]));
    ghost var w;
    rc, w := SaveCache(s, cache, 1);
  }

  /** new_nvmem_save_, with the compaction it may begin with. */
  method Save(s: Store, cache: Cache, power: nat, scratch: seq<uint8>) returns (rc: Code, ghost w: Start)
    requires s.Valid() && CanSave(cache, s.log, s.low) && |scratch| == CONFIG_FLASH_BANK_SIZE
    modifies s`headers, s`data, s`index, s`offset, s`log, s`low, s`firsts
    ensures rc == Success ==>
              var base := old(ToSave(s));
              && s.Valid() && EndsFinal(s) && s.low <= |s.log|
              && Succeeds(cache, base, power) && SavedAs(cache, base, LiveObjs(s))
    ensures rc == Reboot ==>
              if old(CompactionNeeded(s)) then old(CompactionHopeless(s, cache))
              else Hopeless(cache, old(LiveObjs(s)), old(s.Free()))
    ensures rc != Success && rc != Reboot ==> Fails(cache, old(ToSave(s)), power, rc)
    ensures rc == PowerLost || rc == Invalid ==> Unclosed(s, w, cache, old(ToSave(s)), rc, power)
  {
    if CompactionNeeded(s) {
      rc, w := SaveCompacted(s, cache, power, scratch);
    } else {
      rc, w := SaveCache(s, cache, power);
    }
  }

  /** What a save finds: what compaction leaves, if it begins with one. */
  ghost function ToSave(s: Store): seq<Obj>
    requires s.Valid() && EndsFinal(s)
    reads s
  {
    if CompactionNeeded(s) then LiveCompacted(s) else LiveObjs(s)
  }

  /** There may be no room for the compaction, or for the save after it. */
  ghost predicate CompactionHopeless(s: Store, cache: Cache)
    requires s.Valid() && EndsFinal(s) && CacheOk(cache)
    reads s
  {
    || TooLarge(s.log, s.low, Available(s))
    || Hopeless(cache, LiveCompacted(s), Available(s) - LiveBytes(s.log, s.low, |s.log|) - CONTAINER_SIZE)
  }

  method SaveCompacted(s: Store, cache: Cache, power: nat, scratch: seq<uint8>) returns (rc: Code, ghost w: Start)
    requires s.Valid() && CanSave(cache, s.log, s.low) && |scratch| == CONFIG_FLASH_BANK_SIZE
    modifies s`headers, s`data, s`index, s`offset, s`log, s`low, s`firsts
    ensures rc == Success ==>
              var base := old(LiveCompacted(s));
              && s.Valid() && EndsFinal(s) && s.low <= |s.log|
              && Succeeds(cache, base, power) && SavedAs(cache, base, LiveObjs(s))
    ensures rc == Reboot ==> old(CompactionHopeless(s, cache))
    ensures rc != Success && rc != Reboot ==> Fails(cache, old(LiveCompacted(s)), power, rc)
    ensures rc == PowerLost || rc == Invalid ==> Unclosed(s, w, cache, old(LiveCompacted(s)), rc, power)
  {
    ghost var objs, room := LiveCompacted(s), Available(s) - LiveBytes(s.log, s.low, |s.log|) - CONTAINER_SIZE;
    w := Start(s.log, 0, 0);
    rc := CompactFirst(s, cache, scratch);
    if rc == Success {
      LessRoom(cache, objs, room, s.Free());
      rc, w := SaveCache(s, cache, power);
    }
  }

  lemma LessRoom(cache: Cache, objs: seq<Obj>, room: int, free: int)
    requires CacheOk(cache) && room <= free
    ensures Hopeless(cache, objs, free) ==> Hopeless(cache, objs, room)
  {
  }

  method CompactFirst(s: Store, cache: Cache, scratch: seq<uint8>) returns (rc: Code)
    requires s.Valid() && CanSave(cache, s.log, s.low) && |scratch| == CONFIG_FLASH_BANK_SIZE
    modifies s`headers, s`data, s`index, s`offset, s`log, s`low, s`firsts
    ensures rc == Success || (rc == Reboot && TooLarge(old(s.log), old(s.low), old(Available(s))))
    ensures rc == Success ==> s.Valid() && CanSave(cache, s.log, s.low) && LiveObjs(s) == old(LiveCompacted(s))
    ensures rc == Success ==>
              s.Free() + LiveBytes(old(s.log), old(s.low), |old(s.log)|) + CONTAINER_SIZE >= old(Available(s))
  {
    StillStorable(s, cache);
    rc := Compact(s, scratch);
  }

  /** Compaction leaves nothing but what was live. */
  lemma StillStorable(s: Store, cache: Cache)
    requires s.Valid() && CanSave(cache, s.log, s.low)
    ensures forall o {:trigger Storable(cache, o)} :: o in LiveCompacted(s) ==> Storable(cache, o)
  {
    if !FreshPage(s) && s.low != |s.log| {
      var f := LastStart(s);
      StopWithin(s.log, s.low, f);
      LiveSplit(s.log, s.low, f, |s.log|);
      LiveSplit(s.log, s.low, StopAt(s.log, s.low, f), |s.log|);
    }
  }
}
