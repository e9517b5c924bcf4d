/** The PinWeaver device: its state, and its requests as operations on it. */
module PinWeaverDevice {
  import opened Common
  import opened Bitwise
  import opened MerkleTree
  import opened PinWeaver
  import opened PinWeaverHistory

  /** create_merkle_tree's root of an empty tree. */
  method EmptyRoot(bits: nat, height: nat) returns (root: Digest)
    ensures root == TreeRoot(map[], bits, height)
  {
    var fanOut := TwoTo(bits);
    root := Zero;
    for hx := 0 to height
      invariant root == Node(map[], fanOut, hx, 0)
    {
      var children := [];
      for kx := 0 to fanOut
        invariant children == Children(map[], fanOut, hx, 0)[..kx]
      {
        EmptyLevel(fanOut, hx, 0 * fanOut + kx);
        children := children + [root];
      }
      root := Parent(children);
    }
    assert Digests(map[]) == map[];
  }

  /** compute_hash */
  function ComputeHash(hashes: seq<Digest>, location: nat, child: Digest): Digest
    requires location <= |hashes|
  {
    Parent(hashes[..location] + [child] + hashes[location..])
  }

  /** compute_root_hash, on a tree of the given fan-out. */
  method ComputeRootHash(fanOut: nat, height: nat, path: nat, hashes: seq<Digest>, child: Digest) returns (root: Digest)
    requires fanOut >= 1 && height >= 1 && |hashes| == Count(fanOut, height)
    ensures root == Climb(fanOut, path, height, hashes, child)
  {
    var numAux := fanOut - 1;
    var index := path;
    var rest := hashes;
    root := ComputeHash(rest[..numAux], index % fanOut, child);
    ClimbStep(fanOut, path, height, hashes, child);
    for hx := 1 to height
      invariant |rest| == Count(fanOut, height - hx + 1) && numAux <= |rest|
      invariant index / fanOut >= 0
      invariant Climb(fanOut, path, height, hashes, child)
             == Climb(fanOut, index / fanOut, height - hx, rest[numAux..], root)
    {
      rest := rest[numAux..];
      index := index / fanOut;
      ClimbStep(fanOut, index, height - hx, rest, root);
      root := ComputeHash(rest[..numAux], index % fanOut, root);
    }
  }

  lemma ClimbStep(fan: nat, i: nat, n: nat, hashes: seq<Digest>, d: Digest)
    requires fan >= 1 && n >= 1 && |hashes| == Count(fan, n)
    ensures i / fan >= 0 && |hashes| >= fan - 1 && |hashes[fan - 1..]| == Count(fan, n - 1)
    ensures Climb(fan, i, n, hashes, d)
         == Climb(fan, i / fan, n - 1, hashes[fan - 1..], ComputeHash(hashes[..fan - 1], i % fan, d))
  {
  }

  datatype Request =
    | ResetTree(bits: nat, height: nat, nonce: nat, treeStored: bool, logStored: bool)
    | InsertLeaf(path: nat, schedule: seq<DelayEntry>, criteria: seq<Criterion>, secrets: Secrets,
                 hashes: seq<Digest>, stray: bool, iv: seq<uint8>, stored: bool)
    | RemoveLeaf(path: nat, hmac: Digest, hashes: seq<Digest>, stray: bool, stored: bool)
    | TryAuth(req: LeafRequest, low: seq<uint8>, pcr: seq<uint8> -> Option<seq<uint8>>, now: nat, stored: bool)
    | ResetAuth(req: LeafRequest, resetSecret: seq<uint8>, stored: bool)
    | LogReplay(req: LeafRequest, root: Digest)
    | Reboot(uptime: nat, stored: bool)

  /** The sizes fixed by the request structs. */
  ghost predicate SizedRequest(r: Request) {
    match r
    case InsertLeaf(_, schedule, criteria, secrets, _, _, iv, _) =>
      |schedule| == SCHED_COUNT && |criteria| == PCR_CRITERIA_COUNT && SecretSizes(secrets) && |iv| == 16
    case TryAuth(req, low, _, _, _) => Sized(req) && |low| == SECRET_SIZE
    case ResetAuth(req, secret, _) => Sized(req) && |secret| == SECRET_SIZE
    case LogReplay(req, _) => Sized(req)
    case _ => true
  }

  // ----- what requests are answered, as the history of the device has it

  /** A leaf is the one last written at its label, up to what the HMAC does not cover; its count is that of the
      failures since, and the delay it is held to is the one that history demands. */
  ghost predicate IsLast(past: seq<Event>, leaf: Wrapped) {
    var l := leaf.pub.leafLabel;
    && LastWritten(past, l).Some? && SameCovered(leaf, LastWritten(past, l).value)
    && leaf.pub.attempts == Cap(Failures(past, l))
    && LastInserted(past, l).Some? && |leaf.pub.schedule| == SCHED_COUNT && ScheduleValid(leaf.pub.schedule)
    && DelayAfter(leaf.pub.schedule, leaf.pub.attempts) == DemandedDelay(past, l)
  }

  /** The secrets of an insertion are those of a leaf with its IV. */
  ghost predicate Inserts(past: seq<Event>, leaf: Wrapped, ins: Insertion) {
    LastInserted(past, leaf.pub.leafLabel) == Some(ins) && leaf.iv == ins.leaf.iv
  }

  /** An answer gives the secrets away, or zeros. */
  ghost predicate Gives(a: Response, secrets: Secrets, ok: bool) {
    if ok then a.secret == secrets.high && a.resetSecret == secrets.resetSecret
    else AllZero(a.secret) && AllZero(a.resetSecret)
  }

  ghost predicate AllZero(b: seq<uint8>) { |b| == SECRET_SIZE && forall k :: 0 <= k < |b| ==> b[k] == 0 }

  /** A try succeeds with the secret the leaf was inserted with, and only then gives the others away. */
  ghost predicate Judged(past: seq<Event>, leaf: Wrapped, low: seq<uint8>, a: Response) {
    forall ins {:trigger Inserts(past, leaf, ins)} :: Inserts(past, leaf, ins) ==>
      (a.code == Success <==> low == ins.secrets.low) && Gives(a, ins.secrets, a.code == Success)
  }

  /** A try is answered: it is made with the leaf last written, and not before the delay has run. */
  ghost predicate TryAnswered(req: LeafRequest, low: seq<uint8>, now: nat, a: Response, past: seq<Event>, boot: nat,
                              after: seq<Event>) {
    if a.code == Success || a.code == LowentAuthFailed then
      && IsLast(past, req.leaf) && !TooEarly(req.leaf.pub, boot, now) && Judged(past, req.leaf, low, a)
      && a.leaf.Some? && after == past + [Tried(req.leaf.pub.leafLabel, a.code == Success, a.leaf.value)]
    else a.leaf == None && a.secret == [] && after == past
  }

  ghost predicate ResetJudged(past: seq<Event>, leaf: Wrapped, resetSecret: seq<uint8>, a: Response) {
    forall ins {:trigger Inserts(past, leaf, ins)} :: Inserts(past, leaf, ins) ==>
      resetSecret == ins.secrets.resetSecret && a.secret == ins.secrets.high
  }

  /** A reset of the count is answered: it is made with the leaf last written and its reset secret. */
  ghost predicate ResetAnswered(req: LeafRequest, resetSecret: seq<uint8>, a: Response, past: seq<Event>,
                                after: seq<Event>) {
    if a.code == Success then
      && IsLast(past, req.leaf) && ResetJudged(past, req.leaf, resetSecret, a)
      && a.leaf.Some? && after == past + [AuthReset(req.leaf.pub.leafLabel, a.leaf.value)]
    else a == Fail(a.code) && after == past
  }

  /** What a request is answered, and what it adds to the history.  A leaf is never written over. */
  ghost predicate Answered(r: Request, a: Response, past: seq<Event>, boot: nat, after: seq<Event>) {
    match r
    case TryAuth(req, low, _, now, _) => TryAnswered(req, low, now, a, past, boot, after)
    case ResetAuth(req, resetSecret, _) => ResetAnswered(req, resetSecret, a, past, after)
    case InsertLeaf(path, _, _, secrets, _, _, _, _) =>
      if a.code == Success then
        LastWritten(past, path) == None && a.leaf.Some? && after == past + [Inserted(path, a.leaf.value, secrets)]
      else a == Fail(a.code) && after == past
    case RemoveLeaf(path, _, _, _, _) =>
      a == Fail(a.code) && after == if a.code == Success then past + [Removed(path)] else past
    case LogReplay(_, _) => after == past
    case ResetTree(_, _, _, _, _) =>
      a == Fail(a.code) && after == if a.code == Success then past + [TreeReset] else past
    case Reboot(_, _) => a == Fail(a.code) && (after == past || after == past + [TreeReset])
  }

  /** What has happened, and how often the device has restarted. */
  datatype Moment = Moment(past: seq<Event>, boot: nat)

  ghost predicate Chronicle(requests: seq<Request>, answers: seq<Response>, moments: seq<Moment>) {
    && |moments| == |answers| + 1 && |answers| <= |requests|
    && (forall n {:trigger answers[n]} :: 0 <= n < |answers| ==>
          Answered(requests[n], answers[n], moments[n].past, moments[n].boot, moments[n + 1].past))
  }

  lemma ChronicleNext(requests: seq<Request>, answers: seq<Response>, moments: seq<Moment>, a: Response, m: Moment)
    requires Chronicle(requests, answers, moments) && |answers| < |requests|
    requires var now := moments[|answers|]; Answered(requests[|answers|], a, now.past, now.boot, m.past)
    ensures Chronicle(requests, answers + [a], moments + [m])
  {
    var all, times := answers + [a], moments + [m];
    forall n | 0 <= n < |all|
      ensures Answered(requests[n], all[n], times[n].past, times[n].boot, times[n + 1].past)
    {
      if n < |answers| {
        assert all[n] == answers[n] && times[n] == moments[n] && times[n + 1] == moments[n + 1];
        assert Answered(requests[n], answers[n], moments[n].past, moments[n].boot, moments[n + 1].past);
      }
    }
  }

  class Device {
    const crypt: Cipher

    // struct merkle_tree_t; both keys are named by the nonce they are derived from.
    var bits: nat
    var height: nat
    var root: Digest
    var key: nat
    var restartCount: nat

    // What the variables pwT0 and pwL0 hold.
    var nvTree: Option<TreeRecord>
    var nvLog: Option<Log>

    ghost var leaves: map<nat, Wrapped>
    ghost var trace: seq<Event>
    ghost var stories: seq<Story>

    /** The root is that of the leaves: no reset of the tree was half stored since the last full one. */
    ghost var clean: bool

    /** validate_tree */
    predicate Initialized()
      reads this
    {
      ValidateTreeParameters(bits, height) == Success
    }

    ghost predicate Valid()
      reads this
    {
      StateOk(crypt, bits, height, root, key, nvLog, leaves, trace, stories, clean)
    }

    /** What the root holds at a label. */
    function Held(l: nat): Option<Path>
      reads this
    {
      Get(root, TwoTo(bits), height, l)
    }

    /** In a clean tree that is the digest of the leaf there, with its true siblings. */
    lemma CleanHolds(l: nat)
      requires Valid() && Initialized() && clean && LabelFits(l, bits, height)
      ensures Held(l) == Some(Path(At(Digests(leaves), l), TrueSiblings(leaves, bits, height, l)))
    {
      TreeHolds(leaves, bits, height, l);
    }

    /** A key that has not been used for this tree, nor for those the log tells of. */
    ghost predicate Unused(n: nat)
      reads this
    {
      (Initialized() ==> n != key) && Unmentioned(root, nvLog, n)
    }

    twostate predicate UnusedKept()
      reads this
    {
      forall n: nat {:trigger Unused(n)} :: old(Unused(n)) ==> Unused(n)
    }

    /** A reboot would load the tree the device works on. */
    ghost predicate InSync()
      reads this
    {
      nvTree == if Initialized() then Some(TreeRecord(bits, height, key)) else None
    }

    /** A reboot would load another tree: the second store of its reset has failed. */
    ghost predicate Pending()
      reads this
    {
      && nvTree.Some? && ValidateTreeParameters(nvTree.value.bits, nvTree.value.height) == Success
      && Unused(nvTree.value.nonce)
    }

    /** The stored leaf at its label, with its true siblings. */
    ghost predicate Genuine(req: LeafRequest)
      reads this
    {
      var l := req.leaf.pub.leafLabel;
      && Initialized() && !req.stray
      && l in leaves && SameCovered(req.leaf, leaves[l]) && req.leaf.hmac == leaves[l].hmac
      && Held(l) == Some(Path(req.leaf.hmac, req.hashes))
    }

    constructor (crypt: Cipher)
      requires Stream(crypt)
      ensures Valid() && InSync() && trace == [] && !Initialized() && this.crypt == crypt
    {
      this.crypt := crypt;
      bits, height, root, key, restartCount := 0, 0, Zero, 0, 0;
      nvTree, nvLog := None, None;
      leaves, trace, stories, clean := map[], [], [], true;
    }

    /** What only a reset of the tree and a reboot change. */
    twostate predicate SameTree()
      reads this
    {
      bits == old(bits) && height == old(height) && key == old(key) && nvTree == old(nvTree)
      && restartCount == old(restartCount) && clean == old(clean)
    }

    twostate predicate Unmoved()
      reads this
    {
      SameTree() && root == old(root) && nvLog == old(nvLog) && leaves == old(leaves) && trace == old(trace)
      && stories == old(stories)
    }

    // ----- validation

    /** validate_request_with_path */
    method ValidateRequestWithPath(path: nat, hashes: seq<Digest>, child: Digest) returns (code: Code)
      requires Valid() && |hashes| == AuxiliaryHashCount(bits, height)
      ensures code in {Success, TreeInvalid, LabelInvalid, PathAuthFailed}
      ensures code == Success
         <==> Initialized() && LabelFits(path, bits, height) && Held(path) == Some(Path(child, hashes))
      ensures code == Success ==> nvLog.Some?
    {
      if !Initialized() {
        return TreeInvalid;
      }
      if !LabelFits(path, bits, height) {
        return LabelInvalid;
      }
      AuxiliaryHashesAreOnePath(bits, height);
      ClimbGets(TwoTo(bits), path, height, hashes, child, root);
      if nvLog.None? {
        ZeroHolds(TwoTo(bits), height, path);
      }
      var parent := ComputeRootHash(TwoTo(bits), height, path, hashes, child);
      return if parent == root then Success else PathAuthFailed;
    }

    /** validate_request_with_wrapped_leaf */
    method ValidateRequestWithWrappedLeaf(req: LeafRequest) returns (code: Code, pub: Public)
      requires Valid() && Sized(req)
      ensures code == Success <==> Genuine(req)
      ensures code == Success ==> nvLog.Some?
      ensures code in {Success, LeafVersionMismatch, LengthInvalid, TreeInvalid, LabelInvalid, PathAuthFailed,
                       HmacAuthFailed}
      ensures code == Success ==> pub == req.leaf.pub
    {
      var leaf := req.leaf;
      pub := leaf.pub;
      assert LeafHistory(crypt, key, bits, height, leaves, trace, pub.leafLabel);
      assert Initialized() ==> HoldsAt(root, bits, height, key, leaves, pub.leafLabel);
      AuxiliaryHashesAreOnePath(bits, height);
      code := ValidateLeafHeader(leaf.head, |req.hashes|, req.stray, AuxiliaryHashCount(bits, height));
      if code != Success {
        return;
      }
      code := ValidateRequestWithPath(pub.leafLabel, req.hashes, leaf.hmac);
      if code != Success {
        return;
      }
      if MacOf(key, leaf.head, leaf.iv, pub, leaf.cipherText) != leaf.hmac {
        return HmacAuthFailed, pub;
      }
      if leaf.head.minor == 0 && leaf.head.major == 0 {
        pub := pub.(criteria := [ZERO_CRITERION, ZERO_CRITERION]);
      }
    }

    // ----- the log

    /** log_roll_for_append, then store_log_data. */
    method AppendLog(entry: LogEntry, stored: bool) returns (code: Code)
      requires nvLog.Some? ==> |nvLog.value.entries| == LOG_ENTRY_COUNT
      modifies this`nvLog
      ensures code == if old(nvLog).None? then NvEmpty else if stored then Success else NvFailure
      ensures nvLog == if code == Success then Some(Rolled(old(nvLog).value, entry)) else old(nvLog)
    {
      if nvLog.None? {
        return NvEmpty;
      }
      var log := Rolled(nvLog.value, entry);
      if !stored {
        return NvFailure;
      }
      nvLog := Some(log);
      return Success;
    }

    /** An update brings in no key that has not been used. */
    ghost predicate KeepsUnused(entry: LogEntry)
      requires nvLog.Some? && |nvLog.value.entries| == LOG_ENTRY_COUNT
      reads this
    {
      forall n: nat {:trigger Unused(n)} :: Unused(n) ==> Unmentioned(entry.root, Some(Rolled(nvLog.value, entry)), n)
    }

    /** Logs an update of the tree, and makes it when the log is stored. */
    method Commit(entry: LogEntry, ghost story: Story, ghost leaves': map<nat, Wrapped>, ghost e: Event, stored: bool)
      returns (code: Code)
      requires Valid() && Initialized() && nvLog.Some?
      requires StateOk(crypt, bits, height, entry.root, key, Some(Rolled(nvLog.value, entry)), leaves', trace + [e],
                       [story, stories[0]], clean)
      requires KeepsUnused(entry)
      modifies this
      ensures Valid() && SameTree() && UnusedKept() && code == if stored then Success else NvFailure
      ensures code != Success ==> Unmoved()
      ensures code == Success ==>
                && leaves == leaves' && trace == old(trace) + [e] && root == entry.root
                && nvLog == Some(Rolled(old(nvLog).value, entry)) && stories == [story, old(stories)[0]]
    {
      code := AppendLog(entry, stored);
      if code == Success {
        Update(entry.root, story, leaves', e);
      }
    }

    method Update(newRoot: Digest, ghost story: Story, ghost leaves': map<nat, Wrapped>, ghost e: Event)
      requires |stories| > 0
      requires StateOk(crypt, bits, height, newRoot, key, nvLog, leaves', trace + [e], [story, stories[0]], clean)
      modifies this`root, this`leaves, this`trace, this`stories
      ensures Valid() && root == newRoot && leaves == leaves' && trace == old(trace) + [e]
      ensures stories == [story, old(stories)[0]]
    {
      root := newRoot;
      leaves, trace, stories := leaves', trace + [e], [story, stories[0]];
    }

    /** find_relevant_entry; -1 when the log has no valid entry. */
    method FindRelevantEntry(log: Log, wanted: Digest) returns (code: Code, index: int)
      requires |log.entries| == LOG_ENTRY_COUNT
      ensures code in {Success, RootNotFound}
      ensures code == Success ==> Finds(log, wanted, index)
      ensures code == RootNotFound ==> forall k :: !Finds(log, wanted, k)
      ensures -1 <= index < LOG_ENTRY_COUNT
      ensures code == RootNotFound ==>
                && (forall k :: 0 <= k <= index ==> log.entries[k].kind != MtInvalid)
                && (index + 1 < LOG_ENTRY_COUNT ==> log.entries[index + 1].kind == MtInvalid)
    {
      index := 0;
      while index < LOG_ENTRY_COUNT
        invariant 0 <= index <= LOG_ENTRY_COUNT
        invariant forall k :: 0 <= k < index ==> log.entries[k].kind != MtInvalid && log.entries[k].root != wanted
      {
        if log.entries[index].kind == MtInvalid {
          break;
        }
        if log.entries[index].root == wanted {
          return Success, index;
        }
        index := index + 1;
      }
      return RootNotFound, index - 1;
    }

    // ----- requests

    /** store_merkle_tree: the tree and the log are stored one after the other. */
    method StoreMerkleTree(newBits: nat, newHeight: nat, nonce: nat, newRoot: Digest, treeStored: bool, logStored: bool)
      returns (code: Code)
      modifies this`nvTree, this`nvLog, this`restartCount
      ensures code == if treeStored && logStored then Success else NvFailure
      ensures nvTree == if treeStored then Some(TreeRecord(newBits, newHeight, nonce)) else old(nvTree)
      ensures code == Success ==> restartCount == 0 && nvLog == Some(Log(0, [ResetEntry(newRoot), NO_ENTRY]))
      ensures code != Success ==> restartCount == old(restartCount) && nvLog == old(nvLog)
    {
      if !treeStored {
        return NvFailure;
      }
      nvTree := Some(TreeRecord(newBits, newHeight, nonce));
      if !logStored {
        return NvFailure;
      }
      nvLog := Some(Log(0, [ResetEntry(newRoot), NO_ENTRY]));
      restartCount := 0;
      return Success;
    }

    /** pw_handle_reset_tree */
    method HandleResetTree(newBits: nat, newHeight: nat, nonce: nat, treeStored: bool, logStored: bool)
      returns (code: Code)
      requires Valid()
      modifies this
      ensures Valid()
      // The key of a full reset is the only one in use after it; a failed reset uses none.
      ensures code == Success ==> forall n: nat {:trigger Unused(n)} :: n != nonce ==> Unused(n)
      ensures code != Success ==> UnusedKept()
      ensures code == (if ValidateTreeParameters(newBits, newHeight) != Success
                       then ValidateTreeParameters(newBits, newHeight)
                       else if treeStored && logStored then Success else NvFailure)
      ensures code == Success ==>
                && Initialized() && bits == newBits && height == newHeight && key == nonce && restartCount == 0
                && leaves == map[] && trace == old(trace) + [TreeReset] && InSync() && clean
      ensures code != Success ==>
                && bits == old(bits) && height == old(height) && root == old(root) && key == old(key)
                && restartCount == old(restartCount) && nvLog == old(nvLog) && leaves == old(leaves)
                && trace == old(trace) && stories == old(stories) && clean == old(clean)
      ensures code != Success ==>
                nvTree == if code == NvFailure && treeStored then Some(TreeRecord(newBits, newHeight, nonce))
                    else old(nvTree)
    {
      code := ValidateTreeParameters(newBits, newHeight);
      if code != Success {
        return;
      }
      var newRoot := EmptyRoot(newBits, newHeight);
      assert Stream(crypt);
      ResetOk(crypt, newBits, newHeight, newRoot, nonce, ResetEntry(newRoot), trace);
      code := StoreMerkleTree(newBits, newHeight, nonce, newRoot, treeStored, logStored);
      if code != Success {
        return;
      }
      Adopt(newBits, newHeight, newRoot, nonce);
    }

    /** A new tree takes the place of the old one. */
    method Adopt(newBits: nat, newHeight: nat, newRoot: Digest, nonce: nat)
      requires ValidateTreeParameters(newBits, newHeight) == Success && newRoot == TreeRoot(map[], newBits, newHeight)
      requires nvLog == Some(Log(0, [ResetEntry(newRoot), NO_ENTRY]))
      requires nvTree == Some(TreeRecord(newBits, newHeight, nonce))
      requires StateOk(crypt, newBits, newHeight, newRoot, nonce, nvLog, map[], trace + [TreeReset],
                       [Other, Other], true)
      modifies this`bits, this`height, this`root, this`key, this`leaves, this`trace, this`stories, this`clean
      ensures Valid() && InSync() && clean && Initialized() && bits == newBits && height == newHeight && key == nonce
      ensures leaves == map[] && trace == old(trace) + [TreeReset]
      ensures forall n: nat {:trigger Unused(n)} :: n != nonce ==> Unused(n)
    {
      bits, height, root, key := newBits, newHeight, newRoot, nonce;
      leaves, trace, stories, clean := map[], trace + [TreeReset], [Other, Other], true;
      OnlyKey(nonce);
    }

    /** No key is in an empty tree. */
    lemma OnlyKey(nonce: nat)
      requires Initialized() && key == nonce && root == TreeRoot(map[], bits, height)
      requires nvLog == Some(Log(0, [ResetEntry(root), NO_ENTRY]))
      ensures forall n: nat {:trigger Unused(n)} :: n != nonce ==> Unused(n)
    {
      forall n: nat | n != nonce
        ensures Unused(n)
      {
        EmptyUnmentioned(TwoTo(bits), height, 0, n);
        assert Digests(map[]) == map[];
      }
    }

    /** pw_handle_insert_leaf, with the random IV it draws. */
    method HandleInsertLeaf(path: nat, schedule: seq<DelayEntry>, criteria: seq<Criterion>, secrets: Secrets,
                            hashes: seq<Digest>, stray: bool, iv: seq<uint8>, stored: bool) returns (r: Response)
      requires Valid() && |schedule| == SCHED_COUNT && |criteria| == PCR_CRITERIA_COUNT
      requires SecretSizes(secrets) && |iv| == 16
      modifies this
      ensures Valid() && SameTree() && UnusedKept()
      ensures r.code == Success
         <==> old(Initialized()) && !stray && LabelFits(path, bits,
                                                        height) && old(Held(path)) == Some(Path(Zero, hashes))
              && ScheduleValid(schedule) && stored
      ensures r.code != Success ==> Unmoved() && r == Fail(r.code)
      ensures r.code == Success ==>
                var pub := Public(path, schedule, Timestamp(0, 0), 0, criteria);
                var leaf := Wrap(key, iv, pub, crypt(key, iv, BytesOf(secrets)));
                && r.leaf == Some(leaf) && leaves == old(leaves)[path := leaf]
                && trace == old(trace) + [Inserted(path, leaf, secrets)] && old(nvLog).Some?
                && nvLog == Some(Rolled(old(nvLog).value, LogEntry(root, InsertLeafKind, path, leaf.hmac,
                                                                   Timestamp(0, 0), Success)))
    {
      AuxiliaryHashesAreOnePath(bits, height);
      if stray || |hashes| != AuxiliaryHashCount(bits, height) {
        return Fail(LengthInvalid);
      }
      var code := ValidateRequestWithPath(path, hashes, Zero);
      if code != Success {
        return Fail(code);
      }
      code := ValidateDelaySchedule(schedule);
      if code != Success {
        return Fail(code);
      }
      var pub := Public(path, schedule, Timestamp(0, 0), 0, criteria);
      var leaf := Wrap(key, iv, pub, crypt(key, iv, BytesOf(secrets)));
      var newRoot := ComputeRootHash(TwoTo(bits), height, path, hashes, leaf.hmac);
      InsertHistory(crypt, key, bits, height, leaves, trace, path, leaf, secrets);
      Updated(leaves[path := leaf], path, hashes, Zero, leaf.hmac);
      var entry := LogEntry(newRoot, InsertLeafKind, path, leaf.hmac, Timestamp(0, 0), Success);
      CommitOk(crypt, bits, height, root, key, nvLog, leaves, trace, stories, clean, entry, Other,
               leaves[path := leaf], Inserted(path, leaf, secrets));
      NoOtherKey(path, hashes, Zero, leaf.hmac, entry);
      code := Commit(entry, Other, leaves[path := leaf], Inserted(path, leaf, secrets), stored);
      if code != Success {
        return Fail(code);
      }
      return Response(Success, Some(leaf), [], [], 0);
    }

    /** pw_handle_remove_leaf */
    method HandleRemoveLeaf(path: nat, hmac: Digest, hashes: seq<Digest>, stray: bool, stored: bool)
      returns (r: Response)
      requires Valid()
      modifies this
      ensures Valid() && SameTree() && UnusedKept()
      ensures r.code == Success
         <==> old(Initialized()) && !stray && LabelFits(path, bits,
                                                        height) && old(Held(path)) == Some(Path(hmac, hashes))
              && stored
      ensures r == Fail(r.code)
      ensures r.code != Success ==> Unmoved()
      ensures r.code == Success ==>
                && leaves == old(leaves) - {path} && trace == old(trace) + [Removed(path)] && old(nvLog).Some?
                && nvLog == Some(Rolled(old(nvLog).value, LogEntry(root, RemoveLeafKind, path, Zero, Timestamp(0, 0),
                                                                   Success)))
    {
      AuxiliaryHashesAreOnePath(bits, height);
      if stray || |hashes| != AuxiliaryHashCount(bits, height) {
        return Fail(LengthInvalid);
      }
      var code := ValidateRequestWithPath(path, hashes, hmac);
      if code != Success {
        return Fail(code);
      }
      var newRoot := ComputeRootHash(TwoTo(bits), height, path, hashes, Zero);
      RemoveHistory(crypt, key, bits, height, leaves, trace, path);
      Updated(leaves - {path}, path, hashes, hmac, Zero);
      var entry := LogEntry(newRoot, RemoveLeafKind, path, Zero, Timestamp(0, 0), Success);
      CommitOk(crypt, bits, height, root, key, nvLog, leaves, trace, stories, clean, entry, Other,
               leaves - {path}, Removed(path));
      NoOtherKey(path, hashes, hmac, Zero, entry);
      code := Commit(entry, Other, leaves - {path}, Removed(path), stored);
      return Fail(code);
    }

    /** What holds of the new root when the digest at one label is replaced. */
    lemma Updated(leaves': map<nat, Wrapped>, l: nat, hashes: seq<Digest>, d: Digest, d': Digest)
      requires Valid() && Initialized() && LabelFits(l, bits, height) && Held(l) == Some(Path(d, hashes))
      requires forall k: nat :: k != l ==> (k in leaves <==> k in leaves') && (k in leaves ==> leaves'[k] == leaves[k])
      requires if l in leaves' then d' == leaves'[l].hmac else d' == Zero
      ensures var newRoot := Climb(TwoTo(bits), l, height, hashes, d');
              && Holding(newRoot, bits, height, key, leaves')
              && (clean ==> newRoot == TreeRoot(leaves', bits, height))
    {
      HoldingAfter(root, bits, height, key, leaves, leaves', l, hashes, d, d');
      if clean {
        CleanHolds(l);
        UpdatedRoot(leaves, leaves', bits, height, l);
      }
    }

    /** Nor does an update bring in a key that has not been used. */
    lemma NoOtherKey(l: nat, hashes: seq<Digest>, d: Digest, d': Digest, entry: LogEntry)
      requires Valid() && Initialized() && nvLog.Some? && Held(l) == Some(Path(d, hashes))
      requires entry.root == Climb(TwoTo(bits), l, height, hashes, d') && (d' == Zero || OfKey(d', key))
      ensures KeepsUnused(entry)
    {
      forall n: nat | Unused(n)
        ensures Unmentioned(entry.root, Some(Rolled(nvLog.value, entry)), n)
      {
        UpdateUnmentioned(TwoTo(bits), l, height, hashes, d, d', root, nvLog.value, entry, n);
      }
    }

    /** What a try can make of this leaf now, apart from the outcome of the comparison. */
    ghost predicate CanTry(req: LeafRequest, pcr: seq<uint8> -> Option<seq<uint8>>, now: nat)
      reads this
    {
      Genuine(req) && PcrSatisfied(req.leaf.pub.criteria, pcr) && !TooEarly(req.leaf.pub, restartCount, now)
    }

    /** Replaces the genuine leaf of a request by one with another count and timestamp, and logs it. */
    method Retouch(req: LeafRequest, attempts: nat, timestamp: Timestamp, verdict: Code, ghost e: Event, stored: bool)
      returns (code: Code, leaf: Wrapped)
      requires Valid() && Sized(req) && Genuine(req) && nvLog.Some?
      requires var l, made := req.leaf.pub.leafLabel, Retouched(key, req.leaf, attempts, timestamp);
               if verdict == Success then attempts == 0 && (e == Tried(l, true, made) || e == AuthReset(l, made))
               else attempts == Cap(req.leaf.pub.attempts + 1) && e == Tried(l, false, made)
      modifies this
      ensures Valid() && SameTree() && UnusedKept() && code == if stored then Success else NvFailure
      ensures leaf == Retouched(key, req.leaf, attempts, timestamp)
      ensures code != Success ==> Unmoved()
      ensures code == Success ==>
                && leaves == old(leaves)[req.leaf.pub.leafLabel := leaf] && trace == old(trace) + [e]
                && nvLog.Some? && |nvLog.value.entries| == LOG_ENTRY_COUNT
                && nvLog.value.entries[0] == LogEntry(root, TryAuthKind, req.leaf.pub.leafLabel, Zero, timestamp,
                                                      verdict)
                && nvLog.value.entries[1..] == old(nvLog.value.entries[..1])
                && stories == [Auth(req.leaf, leaf, req.hashes), old(stories)[0]]
    {
      ghost var l := req.leaf.pub.leafLabel;
      assert LeafHistory(crypt, key, bits, height, leaves, trace, l);
      AuxiliaryHashesAreOnePath(bits, height);
      leaf := Retouched(key, req.leaf, attempts, timestamp);
      var newRoot := ComputeRootHash(TwoTo(bits), height, req.leaf.pub.leafLabel, req.hashes, leaf.hmac);
      RetouchHistory(crypt, key, bits, height, leaves, trace, l, req.leaf, e, leaf);
      Updated(leaves[l := leaf], l, req.hashes, req.leaf.hmac, leaf.hmac);
      var entry := LogEntry(newRoot, TryAuthKind, req.leaf.pub.leafLabel, Zero, timestamp, verdict);
      CommitOk(crypt, bits, height, root, key, nvLog, leaves, trace, stories, clean, entry,
               Auth(req.leaf, leaf, req.hashes), leaves[l := leaf], e);
      NoOtherKey(l, req.hashes, req.leaf.hmac, leaf.hmac, entry);
      code := Commit(entry, Auth(req.leaf, leaf, req.hashes), leaves[l := leaf], e, stored);
    }

    /** pw_handle_try_auth */
    method HandleTryAuth(req: LeafRequest, low: seq<uint8>, pcr: seq<uint8> -> Option<seq<uint8>>, now: nat,
                         stored: bool) returns (r: Response)
      requires Valid() && Sized(req) && |low| == SECRET_SIZE
      modifies this
      ensures Valid() && SameTree() && UnusedKept()
      // Which requests are tries at all.
      ensures r.code == Success || r.code == LowentAuthFailed <==> old(CanTry(req, pcr, now)) && stored
      ensures !(old(CanTry(req, pcr, now)) && stored) ==> Unmoved() && r.leaf == None && r.secret == []
      ensures r.code == RateLimitReached && r.wait != BLOCK_ATTEMPTS ==>
                !TooEarly(req.leaf.pub, restartCount, now + r.wait)
      // What a try does.
      ensures old(CanTry(req, pcr, now)) && stored ==>
                var l := req.leaf.pub.leafLabel;
                var leaf := Retouched(key, req.leaf, if r.code == Success then 0 else Cap(req.leaf.pub.attempts + 1),
                                      Timestamp(restartCount, now));
                && r.leaf == Some(leaf) && leaves == old(leaves)[l := leaf]
                && trace == old(trace) + [Tried(l, r.code == Success, leaf)]
                && |stories| > 0 && stories[0] == Auth(req.leaf, leaf, req.hashes)
                && nvLog.Some? && |nvLog.value.entries| == LOG_ENTRY_COUNT
                && nvLog.value.entries[0] == LogEntry(root, TryAuthKind, l, Zero, Timestamp(restartCount, now), r.code)
      // A try succeeds with the secret the leaf was inserted with, and only then releases the others.
      ensures old(CanTry(req, pcr, now)) && stored ==>
                forall ins :: LastInserted(old(trace),
                                           req.leaf.pub.leafLabel) == Some(ins) && req.leaf.iv == ins.leaf.iv ==>
                  && (r.code == Success <==> low == ins.secrets.low)
                  && r.secret == (if r.code == Success then ins.secrets.high else ZERO_SECRET)
                  && r.resetSecret == (if r.code == Success then ins.secrets.resetSecret else ZERO_SECRET)
    {
      var code, pub := ValidateRequestWithWrappedLeaf(req);
      if code != Success {
        return Fail(code);
      }
      assert LeafHistory(crypt, key, bits, height, leaves, trace, req.leaf.pub.leafLabel);
      var secrets := SecretsIn(crypt(key, req.leaf.iv, req.leaf.cipherText));
      code := ValidatePcrValue(pub.criteria, pcr);
      if code != Success {
        return Fail(code);
      }
      var wait;
      code, wait := TestRateLimit(pub, restartCount, now);
      if code != Success {
        return Response(code, None, [], [], wait);
      }
      var timestamp := Timestamp(restartCount, now);
      var failed := if pub.attempts != UINT32_MAX then pub.attempts + 1 else pub.attempts;
      var ok := low == secrets.low;
      var attempts, verdict := if ok then 0 else failed, if ok then Success else LowentAuthFailed;
      ghost var e := Tried(pub.leafLabel, ok, Retouched(key, req.leaf, attempts, timestamp));
      var leaf;
      code, leaf := Retouch(req, attempts, timestamp, verdict, e, stored);
      if code != Success {
        return Fail(code);
      }
      return Response(verdict, Some(leaf), if ok then secrets.high else ZERO_SECRET,
                      if ok then secrets.resetSecret else ZERO_SECRET, 0);
    }

    /** pw_handle_reset_auth */
    method HandleResetAuth(req: LeafRequest, resetSecret: seq<uint8>, stored: bool) returns (r: Response)
      requires Valid() && Sized(req) && |resetSecret| == SECRET_SIZE
      modifies this
      ensures Valid() && SameTree() && UnusedKept()
      ensures r.code == Success ==> old(Genuine(req)) && stored
      ensures r.code != Success ==> Unmoved() && r == Fail(r.code)
      ensures r.code == Success ==>
                var l, leaf := req.leaf.pub.leafLabel, Retouched(key, req.leaf, 0, req.leaf.pub.timestamp);
                && r.leaf == Some(leaf) && leaves == old(leaves)[l := leaf]
                && trace == old(trace) + [AuthReset(l, leaf)]
                && |stories| > 0 && stories[0] == Auth(req.leaf, leaf, req.hashes)
                && nvLog.Some? && |nvLog.value.entries| == LOG_ENTRY_COUNT
                && nvLog.value.entries[0] == LogEntry(root, TryAuthKind, l, Zero, leaf.pub.timestamp, Success)
      ensures old(Genuine(req)) && stored ==>
                forall ins :: LastInserted(old(trace),
                                           req.leaf.pub.leafLabel) == Some(ins) && req.leaf.iv == ins.leaf.iv ==>
                  && (r.code == Success <==> resetSecret == ins.secrets.resetSecret)
                  && (r.code == Success ==> r.secret == ins.secrets.high)
    {
      var code, pub := ValidateRequestWithWrappedLeaf(req);
      if code != Success {
        return Fail(code);
      }
      assert LeafHistory(crypt, key, bits, height, leaves, trace, req.leaf.pub.leafLabel);
      var secrets := SecretsIn(crypt(key, req.leaf.iv, req.leaf.cipherText));
      if resetSecret != secrets.resetSecret {
        return Fail(ResetAuthFailed);
      }
      ghost var e := AuthReset(pub.leafLabel, Retouched(key, req.leaf, 0, pub.timestamp));
      var leaf;
      code, leaf := Retouch(req, 0, pub.timestamp, Success, e, stored);
      if code != Success {
        return Fail(code);
      }
      return Response(Success, Some(leaf), secrets.high, [], 0);
    }

    /** Replay of this request, with this root, makes the leaf that story x of the log tells of. */
    ghost predicate Replays(req: LeafRequest, logRoot: Digest, x: int)
      requires Valid() && Initialized() && nvLog.Some? && |req.leaf.iv| == 16
      reads this
    {
      && Finds(nvLog.value, logRoot, x) && stories[x].Auth?
      && !req.stray && req.hashes == stories[x].hashes
      && req.leaf.pub.leafLabel == nvLog.value.entries[x].leafLabel
      && ValidateLeafHeader(req.leaf.head, |req.hashes|, req.stray, AuxiliaryHashCount(bits, height)) == Success
      && req.leaf.hmac == MacOf(key, req.leaf.head, req.leaf.iv, req.leaf.pub, req.leaf.cipherText)
      && SameCovered(Replayed(key, req.leaf, nvLog.value.entries[x]), stories[x].after)
    }

    /** pw_handle_log_replay */
    method HandleLogReplay(req: LeafRequest, logRoot: Digest) returns (r: Response)
      requires Valid() && Sized(req)
      ensures r.code == Success <==> Initialized() && nvLog.Some? && exists x :: Replays(req, logRoot, x)
      ensures r.code != Success ==> r == Fail(r.code)
      ensures r.code == Success ==>
                exists x :: Replays(req, logRoot, x) && r.leaf == Some(Replayed(key, req.leaf, nvLog.value.entries[x]))
    {
      if !Initialized() {
        return Fail(TreeInvalid);
      }
      var code := ValidateLeafHeader(req.leaf.head, |req.hashes|, req.stray, AuxiliaryHashCount(bits, height));
      if code != Success {
        return Fail(code);
      }
      AuxiliaryHashesAreOnePath(bits, height);
      if nvLog.None? {
        return Fail(NvEmpty);
      }
      var log := nvLog.value;
      var x;
      code, x := FindRelevantEntry(log, logRoot);
      if code != Success {
        return Fail(code);
      }
      assert forall y :: Finds(log, logRoot, y) ==> y == x;
      var entry := log.entries[x];
      if entry.kind != TryAuthKind {
        return Fail(TypeInvalid);
      }
      var leaf := req.leaf;
      if MacOf(key, leaf.head, leaf.iv, leaf.pub, leaf.cipherText) != leaf.hmac {
        return Fail(HmacAuthFailed);
      }
      if leaf.pub.leafLabel != entry.leafLabel {
        return Fail(LabelInvalid);
      }
      if stories[x].Stale? {
        StaleNeverReplays(key, bits, height, entry, leaf, req.hashes);
      } else {
        ReplayMatches(key, bits, height, entry, stories[x], leaf, req.hashes);
      }
      var replayed := Replayed(key, leaf, entry);
      var newRoot := ComputeRootHash(TwoTo(bits), height, leaf.pub.leafLabel, req.hashes, replayed.hmac);
      if newRoot != entry.root {
        return Fail(PathAuthFailed);
      }
      assert Replays(req, logRoot, x);
      return Response(Success, Some(replayed), [], [], 0);
    }

    /** A restart of the device, up to the end of load_merkle_tree.  After a reset that was half stored it
        loads the new shape and key over the old root and log. */
    method Restart(uptime: nat, stored: bool) returns (code: Code)
      requires Valid() && (InSync() || Pending())
      modifies this
      ensures Valid() && InSync() && nvTree == old(nvTree)
      ensures old(InSync()) ==>
                && bits == old(bits) && height == old(height) && leaves == old(leaves) && trace == old(trace)
                && (Initialized() ==>
                    root == old(root) && key == old(key) && stories == old(stories) && clean == old(clean))
      ensures !old(InSync()) ==>
                && Initialized() && TreeRecord(bits, height, key) == old(nvTree.value) && root == old(root)
                && leaves == map[] && trace == old(trace) + [TreeReset] && !clean
      ensures forall n: nat {:trigger Unused(n)} ::
                old(Unused(n)) && (old(nvTree.Some?) ==> n != old(nvTree.value.nonce)) ==> Unused(n)
      ensures code == Success && uptime < RESTART_TIMER_THRESHOLD ==>
                && nvLog.Some? && old(nvLog).Some?
                && restartCount == nvLog.value.restartCount == (old(nvLog).value.restartCount + 1) % (UINT32_MAX + 1)
    {
      EmptyHistory(crypt, bits, height, key, leaves, trace);
      if !InSync() {
        GiveUp();
      }
      code := Load(uptime, stored);
    }

    /** What history makes of a tree that is half stored when it is loaded. */
    ghost method GiveUp()
      requires Valid() && Pending()
      modifies this`leaves, this`trace, this`stories, this`clean
      ensures leaves == map[] && trace == old(trace) + [TreeReset] && !clean
      ensures StateOk(crypt, nvTree.value.bits, nvTree.value.height, root, nvTree.value.nonce, nvLog, leaves,
                      trace, stories, clean)
    {
      StaleOk(crypt, nvTree.value.bits, nvTree.value.height, root, nvTree.value.nonce, nvLog, trace);
      leaves, trace, clean := map[], trace + [TreeReset], false;
      stories := if nvLog.Some? then [StaleStory(nvLog.value.entries[0]), StaleStory(nvLog.value.entries[1])] else [];
    }

    /** load_merkle_tree, for what the two variables hold. */
    method Load(uptime: nat, stored: bool) returns (code: Code)
      requires nvLog.Some? ==> |nvLog.value.entries| == LOG_ENTRY_COUNT
      modifies this`bits, this`height, this`root, this`key, this`restartCount, this`nvLog
      ensures if nvTree.None? then bits == height == key == 0
              else bits == nvTree.value.bits && height == nvTree.value.height && key == nvTree.value.nonce
      ensures if nvTree.None? || old(nvLog).None? then root == Zero && nvLog == old(nvLog)
              else
                && nvLog.Some? && nvLog.value.entries == old(nvLog).value.entries
                && root == old(nvLog).value.entries[0].root
      ensures code == Success ==> nvLog.Some? && old(nvLog).Some?
      ensures code == Success && uptime < RESTART_TIMER_THRESHOLD ==>
                restartCount == nvLog.value.restartCount == (old(nvLog).value.restartCount + 1) % (UINT32_MAX + 1)
    {
      bits, height, root, key, restartCount := 0, 0, Zero, 0, 0;
      if nvTree.None? {
        return NvEmpty;
      }
      bits, height, key := nvTree.value.bits, nvTree.value.height, nvTree.value.nonce;
      if nvLog.None? {
        return NvEmpty;
      }
      var log := nvLog.value;
      root := log.entries[0].root;
      if uptime < RESTART_TIMER_THRESHOLD {
        log := log.(restartCount := (log.restartCount + 1) % (UINT32_MAX + 1));
        if !stored {
          return NvFailure;
        }
        nvLog := Some(log);
      }
      restartCount := log.restartCount;
      return Success;
    }

    /** A leaf replayed from before a try gives back the leaf the try answered with, unless the try
        failed with the count at its cap. */
    lemma ReplayOfLogged(req: LeafRequest, logRoot: Digest, x: nat)
      requires Valid() && Initialized() && nvLog.Some? && Finds(nvLog.value, logRoot, x) && stories[x].Auth?
      requires req == LeafRequest(stories[x].before, stories[x].hashes, false)
      ensures Replays(req, logRoot, x)
         <==> nvLog.value.entries[x].code == Success || req.leaf.pub.attempts < UINT32_MAX
      ensures Replays(req, logRoot, x) ==> Replayed(key, req.leaf, nvLog.value.entries[x]) == stories[x].after
    {
      AuxiliaryHashesAreOnePath(bits, height);
      assert EntryOk(key, bits, height, nvLog.value.entries[x], stories[x]);
    }

    /** The only leaf accepted for a label is the one last written there, up to what the HMAC does not
        cover; its count is that of the failures since, and the delay it is held to is the one that
        history demands. */
    lemma AcceptedIsLastWritten(req: LeafRequest)
      requires Valid() && Genuine(req)
      ensures IsLast(trace, req.leaf)
    {
      assert LeafHistory(crypt, key, bits, height, leaves, trace, req.leaf.pub.leafLabel);
    }

    /** What the HMAC does not cover can be changed: a leaf is accepted with any other bytes after the first
        four of its IV, and then it is not the one last written. */
    lemma IvTailIgnored(req: LeafRequest, iv: seq<uint8>)
      requires Valid() && Genuine(req) && |iv| == 16 && iv[..4] == req.leaf.iv[..4]
      ensures var other := req.(leaf := req.leaf.(iv := iv));
              && Genuine(other)
              && (iv != leaves[req.leaf.pub.leafLabel].iv ==>
                  LastWritten(trace, req.leaf.pub.leafLabel) != Some(other.leaf))
    {
      assert LeafHistory(crypt, key, bits, height, leaves, trace, req.leaf.pub.leafLabel);
    }

    // ----- after a reset that was only half stored

    /** After a restart with a tree that was half stored there are no leaves, so none is accepted.  One can
        be inserted where the old tree holds an empty digest on a path of the new shape: if the shape is the
        same, at the labels that had no leaf. */
    lemma SameShapeHolds(oldLeaves: map<nat, Wrapped>, l: nat)
      requires Initialized() && LabelFits(l, bits, height) && root == TreeRoot(oldLeaves, bits, height)
      requires forall k: nat :: k in oldLeaves ==> oldLeaves[k].hmac.Mac?
      ensures (exists hashes :: Held(l) == Some(Path(Zero, hashes))) <==> l !in oldLeaves
    {
      TreeHolds(oldLeaves, bits, height, l);
      assert Held(l) == Some(Path(At(Digests(oldLeaves), l), TrueSiblings(oldLeaves, bits, height, l)));
    }

    // ----- runs

    /** The keys of resets are new; the code draws them at random. */
    ghost predicate FreshNonce(r: Request)
      reads this
    {
      r.ResetTree? ==> Unused(r.nonce)
    }

    /** Where a leaf can be inserted, there is none. */
    lemma NothingWritten(path: nat, hashes: seq<Digest>)
      requires Valid() && Initialized() && LabelFits(path, bits, height) && Held(path) == Some(Path(Zero, hashes))
      ensures LastWritten(trace, path) == None
    {
      assert LeafHistory(crypt, key, bits, height, leaves, trace, path);
      assert HoldsAt(root, bits, height, key, leaves, path);
    }

    method AnswerTry(req: LeafRequest, low: seq<uint8>, pcr: seq<uint8> -> Option<seq<uint8>>, now: nat,
                     stored: bool) returns (r: Response)
      requires Valid() && Sized(req) && |low| == SECRET_SIZE
      modifies this
      ensures Valid() && SameTree() && UnusedKept()
      ensures TryAnswered(req, low, now, r, old(trace), old(restartCount), trace)
    {
      if Genuine(req) {
        AcceptedIsLastWritten(req);
      }
      r := HandleTryAuth(req, low, pcr, now, stored);
    }

    method AnswerReset(req: LeafRequest, resetSecret: seq<uint8>, stored: bool) returns (r: Response)
      requires Valid() && Sized(req) && |resetSecret| == SECRET_SIZE
      modifies this
      ensures Valid() && SameTree() && UnusedKept()
      ensures ResetAnswered(req, resetSecret, r, old(trace), trace)
    {
      if Genuine(req) {
        AcceptedIsLastWritten(req);
      }
      r := HandleResetAuth(req, resetSecret, stored);
    }

    method AnswerInsert(path: nat, schedule: seq<DelayEntry>, criteria: seq<Criterion>, secrets: Secrets,
                        hashes: seq<Digest>, stray: bool, iv: seq<uint8>, stored: bool) returns (r: Response)
      requires Valid() && |schedule| == SCHED_COUNT && |criteria| == PCR_CRITERIA_COUNT
      requires SecretSizes(secrets) && |iv| == 16
      modifies this
      ensures Valid() && SameTree() && UnusedKept()
      ensures r.code != Success ==> r == Fail(r.code) && trace == old(trace)
      ensures r.code == Success ==>
                && LastWritten(old(trace), path) == None && r.leaf.Some?
                && trace == old(trace) + [Inserted(path, r.leaf.value, secrets)]
    {
      if Initialized() && LabelFits(path, bits, height) && Held(path) == Some(Path(Zero, hashes)) {
        NothingWritten(path, hashes);
      }
      r := HandleInsertLeaf(path, schedule, criteria, secrets, hashes, stray, iv, stored);
    }

    /** pw_handle_request, and a restart. */
    method Handle(r: Request) returns (response: Response)
      requires Valid() && (InSync() || Pending()) && SizedRequest(r) && FreshNonce(r)
      modifies this
      ensures Valid() && (InSync() || Pending())
      ensures Answered(r, response, old(trace), old(restartCount), trace)
      ensures forall n: nat {:trigger Unused(n)} ::
                old(Unused(n)) && (r.ResetTree? ==> n != r.nonce)
                    && (old(nvTree.Some?) ==> n != old(nvTree.value.nonce)) ==>
                  Unused(n)
      ensures nvTree == old(nvTree) || (r.ResetTree? && nvTree.Some? && nvTree.value.nonce == r.nonce)
    {
      match r
      case ResetTree(newBits, newHeight, nonce, treeStored, logStored) =>
        var code := HandleResetTree(newBits, newHeight, nonce, treeStored, logStored);
        response := Fail(code);
      case InsertLeaf(path, schedule, criteria, secrets, hashes, stray, iv, stored) =>
        response := AnswerInsert(path, schedule, criteria, secrets, hashes, stray, iv, stored);
      case RemoveLeaf(path, hmac, hashes, stray, stored) =>
        response := HandleRemoveLeaf(path, hmac, hashes, stray, stored);
      case TryAuth(req, low, pcr, now, stored) =>
        response := AnswerTry(req, low, pcr, now, stored);
      case ResetAuth(req, resetSecret, stored) =>
        response := AnswerReset(req, resetSecret, stored);
      case LogReplay(req, logRoot) =>
        response := HandleLogReplay(req, logRoot);
      case Reboot(uptime, stored) =>
        var code := Restart(uptime, stored);
        response := Fail(code);
    }

    /** A key that no request of a list draws, nor the device has. */
    ghost predicate NotYet(n: nat)
      reads this
    {
      Unused(n) && (nvTree.Some? ==> n != nvTree.value.nonce)
    }

    /** Any requests and reboots, in any order, with flash failures anywhere.  Every reset draws a new key.
        Each request is answered as the history before it has it. */
    method Run(requests: seq<Request>) returns (answers: seq<Response>, ghost moments: seq<Moment>)
      requires Valid() && (InSync() || Pending()) && forall r <- requests :: SizedRequest(r)
      requires forall i {:trigger requests[i]} :: 0 <= i < |requests| && requests[i].ResetTree? ==>
                NotYet(requests[i].nonce)
      requires forall i, j {:trigger requests[i], requests[j]} ::
                 0 <= i < j < |requests| && requests[i].ResetTree? && requests[j].ResetTree? ==>
                   requests[i].nonce != requests[j].nonce
      modifies this
      ensures Valid() && (InSync() || Pending())
      ensures |answers| == |requests| && Chronicle(requests, answers, moments)
      ensures moments[0] == Moment(old(trace), old(restartCount)) && moments[|requests|] == Moment(trace, restartCount)
    {
      answers, moments := [], [Moment(trace, restartCount)];
      for i := 0 to |requests|
        invariant Valid() && (InSync() || Pending()) && |answers| == i
        invariant Chronicle(requests, answers, moments) && moments[i] == Moment(trace, restartCount)
        invariant moments[0] == Moment(old(trace), old(restartCount))
        invariant forall j {:trigger requests[j]} :: i <= j < |requests| && requests[j].ResetTree? ==>
                  NotYet(requests[j].nonce)
      {
        var answer := Handle(requests[i]);
        ChronicleNext(requests, answers, moments, answer, Moment(trace, restartCount));
        answers, moments := answers + [answer], moments + [Moment(trace, restartCount)];
      }
    }
  }
}
