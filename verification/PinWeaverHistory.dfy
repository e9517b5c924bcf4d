/** What the device is asked, what it keeps, and what the history of its requests says the state has
    to be. */
module PinWeaverHistory {
  import opened Common
  import opened Bitwise
  import opened MerkleTree
  import opened PinWeaver

  // ----- storage

  datatype LogKind = MtInvalid | ResetTreeKind | InsertLeafKind | RemoveLeafKind | TryAuthKind

  /** struct pw_get_log_entry_t */
  datatype LogEntry = LogEntry(root: Digest, kind: LogKind, leafLabel: nat, leafHmac: Digest,
                               timestamp: Timestamp, code: Code)

  const NO_ENTRY := LogEntry(Zero, MtInvalid, 0, Zero, Timestamp(0, 0), Success)
  const LOG_ENTRY_COUNT: nat := 2

  function ResetEntry(root: Digest): LogEntry { LogEntry(root, ResetTreeKind, 0, Zero, Timestamp(0, 0), Success) }

  /** struct pw_log_storage_t, newest entry first. */
  datatype Log = Log(restartCount: nat, entries: seq<LogEntry>)

  /** The log with a new first entry, and without its oldest. */
  function Rolled(log: Log, entry: LogEntry): (r: Log)
    requires |log.entries| == LOG_ENTRY_COUNT
    ensures |r.entries| == LOG_ENTRY_COUNT
  {
    Log(log.restartCount, [entry] + log.entries[..LOG_ENTRY_COUNT - 1])
  }

  /** struct pw_long_term_storage_t; the keys are a function of the nonce. */
  datatype TreeRecord = TreeRecord(bits: nat, height: nat, nonce: nat)

  // ----- requests

  /** A wrapped leaf with its path hashes; stray says that the payload is not a leaf and a whole
      number of hashes. */
  datatype LeafRequest = LeafRequest(leaf: Wrapped, hashes: seq<Digest>, stray: bool)

  /** The sizes fixed by the struct types. */
  ghost predicate PublicSizes(pub: Public) { |pub.schedule| == SCHED_COUNT && |pub.criteria| == PCR_CRITERIA_COUNT }

  ghost predicate Sized(req: LeafRequest) { |req.leaf.iv| == 16 && PublicSizes(req.leaf.pub) }

  /** struct leaf_sensitive_data_t */
  datatype Secrets = Secrets(low: seq<uint8>, high: seq<uint8>, resetSecret: seq<uint8>)

  predicate SecretSizes(s: Secrets) { |s.low| == |s.high| == |s.resetSecret| == SECRET_SIZE }

  function BytesOf(s: Secrets): (b: seq<uint8>)
    requires SecretSizes(s)
    ensures |b| == SEC_LEN && SecretsIn(b) == s
  {
    var b := s.low + s.high + s.resetSecret;
    assert b[..SECRET_SIZE] == s.low && b[SECRET_SIZE..2 * SECRET_SIZE] == s.high;
    b
  }

  function SecretsIn(b: seq<uint8>): (s: Secrets)
    requires |b| == SEC_LEN
    ensures SecretSizes(s)
  {
    Secrets(b[..SECRET_SIZE], b[SECRET_SIZE..2 * SECRET_SIZE], b[2 * SECRET_SIZE..])
  }

  datatype Response = Response(code: Code, leaf: Option<Wrapped>, secret: seq<uint8>, resetSecret: seq<uint8>,
                               wait: nat)

  function Fail(code: Code): Response { Response(code, None, [], [], 0) }

  const ZERO_SECRET: seq<uint8> := seq(SECRET_SIZE, _ => 0)
  const ZERO_CRITERION := Criterion([0, 0], ZERO_SECRET)

  // ----- the history of a device

  /** What the requests that changed the tree did. */
  datatype Event =
    | TreeReset
    | Inserted(l: nat, leaf: Wrapped, secrets: Secrets)
    | Removed(l: nat)
    | Tried(l: nat, ok: bool, leaf: Wrapped)
    | AuthReset(l: nat, leaf: Wrapped)

  datatype Insertion = Insertion(leaf: Wrapped, secrets: Secrets)

  /** The leaf last written at a label, unless it was removed or the tree reset since. */
  ghost function LastWritten(trace: seq<Event>, l: nat): Option<Wrapped> {
    if trace == [] then None
    else
      var rest := LastWritten(trace[..|trace| - 1], l);
      match trace[|trace| - 1]
      case TreeReset => None
      case Inserted(k, leaf, _) => if k == l then Some(leaf) else rest
      case Removed(k) => if k == l then None else rest
      case Tried(k, _, leaf) => if k == l then Some(leaf) else rest
      case AuthReset(k, leaf) => if k == l then Some(leaf) else rest
  }

  /** The last insertion at a label. */
  ghost function LastInserted(trace: seq<Event>, l: nat): Option<Insertion> {
    if trace == [] then None
    else
      var rest := LastInserted(trace[..|trace| - 1], l);
      match trace[|trace| - 1]
      case TreeReset => None
      case Inserted(k, leaf, secrets) => if k == l then Some(Insertion(leaf, secrets)) else rest
      case Removed(k) => if k == l then None else rest
      case Tried(_, _, _) => rest
      case AuthReset(_, _) => rest
  }

  /** The failed tries at a label since its last insertion, success or reset. */
  ghost function Failures(trace: seq<Event>, l: nat): nat {
    if trace == [] then 0
    else
      var rest := Failures(trace[..|trace| - 1], l);
      match trace[|trace| - 1]
      case TreeReset => 0
      case Inserted(k, _, _) => if k == l then 0 else rest
      case Removed(k) => if k == l then 0 else rest
      case Tried(k, ok, _) => if k == l then (if ok then 0 else rest + 1) else rest
      case AuthReset(k, _) => if k == l then 0 else rest
  }

  function Cap(n: nat): nat { if n < UINT32_MAX then n else UINT32_MAX }

  /** The event can end a series of failed tries at l. */
  ghost predicate Clears(e: Event, l: nat) {
    match e
    case TreeReset => true
    case Inserted(k, _, _) => k == l
    case Removed(k) => k == l
    case Tried(k, ok, _) => k == l && ok
    case AuthReset(k, _) => k == l
  }

  /** The delay that history demands before the next try at l. */
  ghost function DemandedDelay(trace: seq<Event>, l: nat): nat
    requires LastInserted(trace, l).Some?
  {
    DelayAfter(LastInserted(trace, l).value.leaf.pub.schedule, Cap(Failures(trace, l)))
  }

  /** While tries at l keep failing, whatever happens at other labels, the delay never drops. */
  lemma {:induction false} DemandedDelayNeverDrops(trace: seq<Event>, more: seq<Event>, l: nat)
    requires LastInserted(trace, l).Some?
    requires var s := LastInserted(trace, l).value.leaf.pub.schedule; |s| == SCHED_COUNT && ScheduleValid(s)
    requires forall e <- more :: !Clears(e, l)
    ensures LastInserted(trace + more, l) == LastInserted(trace, l)
    ensures Failures(trace, l) <= Failures(trace + more, l)
    ensures DemandedDelay(trace, l) <= DemandedDelay(trace + more, l)
  {
    FailuresGrow(trace, more, l);
    DelayNeverDrops(LastInserted(trace, l).value.leaf.pub.schedule, Cap(Failures(trace, l)),
                    Cap(Failures(trace + more, l)));
  }

  lemma {:induction false} FailuresGrow(trace: seq<Event>, more: seq<Event>, l: nat)
    requires forall e <- more :: !Clears(e, l)
    ensures LastInserted(trace + more, l) == LastInserted(trace, l)
    ensures Failures(trace, l) <= Failures(trace + more, l)
  {
    if more == [] {
      assert trace + more == trace;
    } else {
      var n := |more| - 1;
      FailuresGrow(trace, more[..n], l);
      assert (trace + more)[..|trace + more| - 1] == trace + more[..n];
      assert (trace + more)[|trace + more| - 1] == more[n];
      assert more[n] in more;
    }
  }

  // ----- what a leaf has to satisfy

  function Digests(leaves: map<nat, Wrapped>): Leaves {
    map l | l in leaves :: leaves[l].hmac
  }

  ghost predicate LeafOk(key: nat, bits: nat, height: nat, l: nat, leaf: Wrapped) {
    && |leaf.iv| == 16 && PublicSizes(leaf.pub)
    && leaf == Wrap(key, leaf.iv, leaf.pub, leaf.cipherText)
    && leaf.pub.leafLabel == l && LabelFits(l, bits, height)
    && ScheduleValid(leaf.pub.schedule)
  }

  ghost function TrueSiblings(leaves: map<nat, Wrapped>, bits: nat, height: nat, l: nat): seq<Digest> {
    Siblings(Digests(leaves), TwoTo(bits), 0, l, height)
  }

  ghost function TreeRoot(leaves: map<nat, Wrapped>, bits: nat, height: nat): Digest {
    Node(Digests(leaves), TwoTo(bits), height, 0)
  }

  /** A path leads to the root exactly when it is true and its leaf is the one stored. */
  lemma PathIsGenuine(leaves: map<nat, Wrapped>, bits: nat, height: nat, l: nat, hashes: seq<Digest>, d: Digest)
    requires LabelFits(l, bits, height) && |hashes| == Count(TwoTo(bits), height)
    ensures Climb(TwoTo(bits), l, height, hashes, d) == TreeRoot(leaves, bits, height)
       <==> d == At(Digests(leaves), l) && hashes == TrueSiblings(leaves, bits, height, l)
  {
    var m := Digests(leaves);
    LabelReachesRoot(l, bits, height);
    ClimbTrue(m, m, l, TwoTo(bits), 0, height);
    if Climb(TwoTo(bits), l, height, hashes, d) == TreeRoot(leaves, bits, height) {
      ClimbInjective(TwoTo(bits), l, height, hashes, d, TrueSiblings(leaves, bits, height, l),
                     Node(m, TwoTo(bits), 0, l));
    }
  }

  /** The new root computed from the true siblings is that of the tree with one leaf replaced. */
  lemma UpdatedRoot(leaves: map<nat, Wrapped>, leaves': map<nat, Wrapped>, bits: nat, height: nat, l: nat)
    requires LabelFits(l, bits, height)
    requires DifferAt(Digests(leaves), Digests(leaves'), l)
    ensures Climb(TwoTo(bits), l, height, TrueSiblings(leaves, bits, height, l), At(Digests(leaves'), l))
         == TreeRoot(leaves', bits, height)
  {
    LabelReachesRoot(l, bits, height);
    ClimbTrue(Digests(leaves), Digests(leaves'), l, TwoTo(bits), 0, height);
  }

  /** get_path_auxiliary_hash_count */
  function AuxiliaryHashCount(bits: nat, height: nat): nat { (TwoTo(bits) - 1) * height }

  lemma {:induction false} AuxiliaryHashesAreOnePath(bits: nat, height: nat)
    ensures AuxiliaryHashCount(bits, height) == Count(TwoTo(bits), height)
  {
    if height > 0 {
      AuxiliaryHashesAreOnePath(bits, height - 1);
      assert (TwoTo(bits) - 1) * height == (TwoTo(bits) - 1) * (height - 1) + (TwoTo(bits) - 1);
    }
  }

  /** validate_leaf_header, for a payload of a leaf and count hashes. */
  function ValidateLeafHeader(head: Header, count: nat, stray: bool, aux: nat): Code {
    var length := head.pubLen + head.secLen;
    if head.major != MAJOR_VERSION then LeafVersionMismatch
    else if head.minor <= MINOR_VERSION
         && length != (if head.minor == 0 then PUB_LEN + SEC_LEN - CRITERIA_SIZE else PUB_LEN + SEC_LEN)
    then LengthInvalid
    else if stray || count != aux then LengthInvalid
    else Success
  }

  // ----- PCR criteria

  predicate NullCriterion(c: Criterion) { forall b <- c.bitmask :: b == 0 }

  /** Some criterion before the end of the list matches, or the list is empty.  A register that
      cannot be read ends the search. */
  ghost predicate PcrSatisfied(criteria: seq<Criterion>, pcr: seq<uint8> -> Option<seq<uint8>>) {
    || (criteria != [] && NullCriterion(criteria[0]))
    || (exists k :: 0 <= k < |criteria| && pcr(criteria[k].bitmask) == Some(criteria[k].digest)
          && forall j :: 0 <= j <= k ==> !NullCriterion(criteria[j]) && pcr(criteria[j].bitmask).Some?)
  }

  /** validate_pcr_value */
  method ValidatePcrValue(criteria: seq<Criterion>, pcr: seq<uint8> -> Option<seq<uint8>>) returns (code: Code)
    requires |criteria| == PCR_CRITERIA_COUNT
    ensures code == if PcrSatisfied(criteria, pcr) then Success else PcrNotMatch
  {
    for index := 0 to PCR_CRITERIA_COUNT
      invariant forall j :: 0 <= j < index ==>
                  && !NullCriterion(criteria[j]) && pcr(criteria[j].bitmask).Some?
                  && pcr(criteria[j].bitmask) != Some(criteria[j].digest)
    {
      if NullCriterion(criteria[index]) {
        if index == 0 {
          return Success;
        }
        return PcrNotMatch;
      }
      var digest := pcr(criteria[index].bitmask);
      if digest.None? {
        return PcrNotMatch;
      }
      if digest.value == criteria[index].digest {
        return Success;
      }
    }
    return PcrNotMatch;
  }

  // ----- what history says of the state

  type Cipher = (nat, seq<uint8>, seq<uint8>) -> seq<uint8>

  /** A stream cipher keeps the length and undoes itself under the same key and IV. */
  ghost predicate Stream(crypt: Cipher) {
    && (forall k, iv, d :: |crypt(k, iv, d)| == |d|)
    && (forall k, iv, d :: crypt(k, iv, crypt(k, iv, d)) == d)
  }

  /** A leaf keeps what it was inserted with, but for the metadata of tries and what the HMAC does
      not cover. */
  ghost predicate Descends(crypt: Cipher, key: nat, leaf: Wrapped, from: Insertion) {
    && |leaf.iv| == |from.leaf.iv| == 16 && leaf.iv[..4] == from.leaf.iv[..4]
    && SecretSizes(from.secrets)
    && leaf.cipherText == from.leaf.cipherText == crypt(key, from.leaf.iv, BytesOf(from.secrets))
    && leaf.pub.schedule == from.leaf.pub.schedule && leaf.pub.criteria == from.leaf.pub.criteria
  }

  /** The leaf at l is the one last written there, counting the failures since. */
  ghost predicate LeafHistory(crypt: Cipher, key: nat, bits: nat, height: nat, leaves: map<nat, Wrapped>,
                              trace: seq<Event>, l: nat) {
    if l !in leaves then LastWritten(trace, l) == None
    else
      && LastWritten(trace, l) == Some(leaves[l])
      && LeafOk(key, bits, height, l, leaves[l])
      && leaves[l].pub.attempts == Cap(Failures(trace, l))
      && LastInserted(trace, l).Some?
      && Descends(crypt, key, leaves[l], LastInserted(trace, l).value)
  }

  ghost predicate HistoryOk(crypt: Cipher, key: nat, bits: nat, height: nat, leaves: map<nat, Wrapped>,
                            trace: seq<Event>) {
    forall l: nat :: LeafHistory(crypt, key, bits, height, leaves, trace, l)
  }

  /** An event at one label does not touch the history of the others. */
  lemma Elsewhere(trace: seq<Event>, e: Event, l: nat)
    requires e.TreeReset? || e.l != l
    ensures !e.TreeReset? ==>
              && LastWritten(trace + [e], l) == LastWritten(trace, l)
              && LastInserted(trace + [e], l) == LastInserted(trace, l)
              && Failures(trace + [e], l) == Failures(trace, l)
    ensures e.TreeReset? ==> LastWritten(trace + [e], l) == None
  {
    assert (trace + [e])[..|trace + [e]| - 1] == trace;
  }

  lemma ResetHistory(crypt: Cipher, key: nat, bits: nat, height: nat, trace: seq<Event>)
    ensures HistoryOk(crypt, key, bits, height, map[], trace + [TreeReset])
  {
    forall l: nat
      ensures LeafHistory(crypt, key, bits, height, map[], trace + [TreeReset], l)
    {
      Elsewhere(trace, TreeReset, l);
    }
  }

  lemma EmptyHistory(crypt: Cipher, bits: nat, height: nat, key: nat, leaves: map<nat, Wrapped>, trace: seq<Event>)
    requires HistoryOk(crypt, key, bits, height, leaves, trace)
    ensures leaves == map[] ==> HistoryOk(crypt, 0, 0, 0, leaves, trace)
  {
    if leaves == map[] {
      forall l: nat
        ensures LeafHistory(crypt, 0, 0, 0, leaves, trace, l)
      {
        assert LeafHistory(crypt, key, bits, height, leaves, trace, l);
      }
    }
  }

  lemma OthersKept(crypt: Cipher, key: nat, bits: nat, height: nat, leaves: map<nat, Wrapped>,
                   leaves': map<nat, Wrapped>, trace: seq<Event>, e: Event, l: nat)
    requires HistoryOk(crypt, key, bits, height, leaves, trace) && !e.TreeReset? && e.l == l
    requires forall k: nat :: k != l ==> (k in leaves <==> k in leaves') && (k in leaves ==> leaves'[k] == leaves[k])
    requires LeafHistory(crypt, key, bits, height, leaves', trace + [e], l)
    ensures HistoryOk(crypt, key, bits, height, leaves', trace + [e])
    ensures DifferAt(Digests(leaves), Digests(leaves'), l)
  {
    forall k: nat | k != l
      ensures LeafHistory(crypt, key, bits, height, leaves', trace + [e], k)
    {
      Elsewhere(trace, e, k);
      assert LeafHistory(crypt, key, bits, height, leaves, trace, k);
    }
  }

  lemma InsertHistory(crypt: Cipher, key: nat, bits: nat, height: nat, leaves: map<nat, Wrapped>, trace: seq<Event>,
                      l: nat, leaf: Wrapped, secrets: Secrets)
    requires HistoryOk(crypt, key, bits, height, leaves, trace)
    requires LeafOk(key, bits, height, l, leaf) && leaf.pub.attempts == 0
    requires SecretSizes(secrets) && leaf.cipherText == crypt(key, leaf.iv, BytesOf(secrets))
    ensures HistoryOk(crypt, key, bits, height, leaves[l := leaf], trace + [Inserted(l, leaf, secrets)])
    ensures DifferAt(Digests(leaves), Digests(leaves[l := leaf]), l)
  {
    var e := Inserted(l, leaf, secrets);
    assert (trace + [e])[..|trace + [e]| - 1] == trace;
    OthersKept(crypt, key, bits, height, leaves, leaves[l := leaf], trace, e, l);
  }

  lemma RemoveHistory(crypt: Cipher, key: nat, bits: nat, height: nat, leaves: map<nat, Wrapped>, trace: seq<Event>,
                      l: nat)
    requires HistoryOk(crypt, key, bits, height, leaves, trace)
    ensures HistoryOk(crypt, key, bits, height, leaves - {l}, trace + [Removed(l)])
    ensures DifferAt(Digests(leaves), Digests(leaves - {l}), l)
  {
    var e := Removed(l);
    assert (trace + [e])[..|trace + [e]| - 1] == trace;
    OthersKept(crypt, key, bits, height, leaves, leaves - {l}, trace, e, l);
  }

  /** The leaf that a try or a reset of the count makes of the leaf it was given. */
  function Retouched(key: nat, leaf: Wrapped, attempts: nat, timestamp: Timestamp): Wrapped
    requires |leaf.iv| == 16
  {
    Wrap(key, leaf.iv, leaf.pub.(attempts := attempts, timestamp := timestamp), leaf.cipherText)
  }

  lemma RetouchHistory(crypt: Cipher, key: nat, bits: nat, height: nat, leaves: map<nat, Wrapped>, trace: seq<Event>,
                       l: nat, given: Wrapped, e: Event, leaf: Wrapped)
    requires HistoryOk(crypt, key, bits, height, leaves, trace) && l in leaves && SameCovered(given, leaves[l])
    requires e == Tried(l, true, leaf) || e == Tried(l, false, leaf) || e == AuthReset(l, leaf)
    requires leaf == Retouched(key, given, if e.Tried? && !e.ok then Cap(leaves[l].pub.attempts + 1) else 0,
                               leaf.pub.timestamp)
    ensures HistoryOk(crypt, key, bits, height, leaves[l := leaf], trace + [e])
    ensures DifferAt(Digests(leaves), Digests(leaves[l := leaf]), l)
  {
    assert LeafHistory(crypt, key, bits, height, leaves, trace, l);
    assert (trace + [e])[..|trace + [e]| - 1] == trace;
    OthersKept(crypt, key, bits, height, leaves, leaves[l := leaf], trace, e, l);
  }

  // ----- what the log says

  /** What a log entry stands for: a try or a reset of a count, with the leaf before and after and the
      siblings on its path, or one of a tree that was given up since. */
  datatype Story = Other | Stale | Auth(before: Wrapped, after: Wrapped, hashes: seq<Digest>)

  /** The leaf that replay makes of a leaf and a log entry; the count is an uint32. */
  function Replayed(key: nat, leaf: Wrapped, entry: LogEntry): Wrapped
    requires |leaf.iv| == 16
  {
    Retouched(key, leaf, if entry.code == Success then 0 else (leaf.pub.attempts + 1) % (UINT32_MAX + 1),
              entry.timestamp)
  }

  ghost predicate EntryOk(key: nat, bits: nat, height: nat, entry: LogEntry, story: Story) {
    && (entry.kind == TryAuthKind <==> story.Auth? || story.Stale?)
    && (story.Stale? ==> !Mentions(entry.root, key))
    && (story.Auth? ==>
          && |story.before.iv| == 16 && LeafOk(key, bits, height, entry.leafLabel, story.before)
          && |story.hashes| == Count(TwoTo(bits), height)
          && story.before.pub.attempts <= UINT32_MAX
          && story.after == Retouched(key, story.before,
                                      if entry.code == Success then 0 else Cap(story.before.pub.attempts + 1),
                                      entry.timestamp)
          && entry.root == Climb(TwoTo(bits), entry.leafLabel, height, story.hashes, story.after.hmac))
  }

  /** The log starts with the current root, and each entry of it has a story. */
  ghost predicate LogOk(key: nat, bits: nat, height: nat, root: Digest, log: Log, stories: seq<Story>) {
    && |log.entries| == |stories| == LOG_ENTRY_COUNT
    && log.entries[0].root == root
    && (forall k :: 0 <= k < LOG_ENTRY_COUNT ==> EntryOk(key, bits, height, log.entries[k], stories[k]))
  }

  predicate OfKey(d: Digest, key: nat) { d.Mac? && d.key == key }

  /** A root holds the leaf of a label, or no leaf of this key. */
  ghost predicate HoldsAt(root: Digest, bits: nat, height: nat, key: nat, leaves: map<nat, Wrapped>, l: nat) {
    LabelFits(l, bits, height) ==>
      var d := DigestAt(root, TwoTo(bits), height, l);
      if l in leaves then d == Some(leaves[l].hmac) else d.None? || !OfKey(d.value, key)
  }

  ghost predicate Holding(root: Digest, bits: nat, height: nat, key: nat, leaves: map<nat, Wrapped>) {
    forall l: nat {:trigger HoldsAt(root, bits, height, key, leaves, l)} :: HoldsAt(root, bits, height, key, leaves, l)
  }

  /** The state of a device, as its history has it.  A tree is clean when its root is that of the leaves;
      after a reset that was only half stored the root is that of a tree with other keys. */
  ghost predicate StateOk(crypt: Cipher, bits: nat, height: nat, root: Digest, key: nat, nvLog: Option<Log>,
                          leaves: map<nat, Wrapped>, trace: seq<Event>, stories: seq<Story>, clean: bool) {
    && Stream(crypt)
    && HistoryOk(crypt, key, bits, height, leaves, trace)
    && (if ValidateTreeParameters(bits, height) == Success then
          && Holding(root, bits, height, key, leaves)
          && (clean ==> root == TreeRoot(leaves, bits, height))
          && (if nvLog.Some? then LogOk(key, bits, height, root, nvLog.value, stories) else root == Zero)
        else
          leaves == map[] && bits == 0 && height == 0 && root == Zero && nvLog.None?)
  }

  /** Replacing what a root holds at a label. */
  lemma HoldingAfter(root: Digest, bits: nat, height: nat, key: nat, leaves: map<nat, Wrapped>, leaves': map<nat,
                     Wrapped>,
                     l: nat, hashes: seq<Digest>, d: Digest, d': Digest)
    requires Holding(root, bits, height, key, leaves) && LabelFits(l, bits, height)
    requires Get(root, TwoTo(bits), height, l) == Some(Path(d, hashes))
    requires forall k: nat :: k != l ==> (k in leaves <==> k in leaves') && (k in leaves ==> leaves'[k] == leaves[k])
    requires if l in leaves' then d' == leaves'[l].hmac else !OfKey(d', key)
    ensures Holding(Climb(TwoTo(bits), l, height, hashes, d'), bits, height, key, leaves')
  {
    var fan := TwoTo(bits);
    var root' := Climb(fan, l, height, hashes, d');
    ClimbGets(fan, l, height, hashes, d, root);
    ClimbGets(fan, l, height, hashes, d', root');
    LabelReachesRoot(l, bits, height);
    forall k: nat
      ensures HoldsAt(root', bits, height, key, leaves', k)
    {
      assert HoldsAt(root, bits, height, key, leaves, k);
      if k != l && LabelFits(k, bits, height) {
        LabelReachesRoot(k, bits, height);
        GetElsewhere(fan, height, l, k, hashes, d, d', root, root');
      }
    }
  }

  /** What the root of a tree holds are its leaves. */
  lemma TreeHolds(leaves: map<nat, Wrapped>, bits: nat, height: nat, l: nat)
    requires LabelFits(l, bits, height)
    ensures Get(TreeRoot(leaves, bits, height), TwoTo(bits), height, l)
         == Some(Path(At(Digests(leaves), l), TrueSiblings(leaves, bits, height, l)))
  {
    LabelReachesRoot(l, bits, height);
    RootHolds(Digests(leaves), TwoTo(bits), height, l);
  }

  lemma EmptyHolding(bits: nat, height: nat, key: nat)
    ensures Holding(TreeRoot(map[], bits, height), bits, height, key, map[])
  {
    forall l: nat
      ensures HoldsAt(TreeRoot(map[], bits, height), bits, height, key, map[], l)
    {
      if LabelFits(l, bits, height) {
        TreeHolds(map[], bits, height, l);
      }
    }
  }

  lemma CommitOk(crypt: Cipher, bits: nat, height: nat, root: Digest, key: nat, nvLog: Option<Log>,
                 leaves: map<nat, Wrapped>, trace: seq<Event>, stories: seq<Story>, clean: bool,
                 entry: LogEntry, story: Story, leaves': map<nat, Wrapped>, e: Event)
    requires StateOk(crypt, bits, height, root, key, nvLog, leaves, trace, stories, clean)
    requires ValidateTreeParameters(bits, height) == Success && nvLog.Some?
    requires HistoryOk(crypt, key, bits, height, leaves', trace + [e])
    requires EntryOk(key, bits, height, entry, story) && Holding(entry.root, bits, height, key, leaves')
    requires clean ==> entry.root == TreeRoot(leaves', bits, height)
    ensures StateOk(crypt, bits, height, entry.root, key, Some(Rolled(nvLog.value, entry)), leaves', trace + [e],
                    [story, stories[0]], clean)
  {
  }

  lemma ResetOk(crypt: Cipher, bits: nat, height: nat, root: Digest, key: nat, entry: LogEntry, trace: seq<Event>)
    requires Stream(crypt) && ValidateTreeParameters(bits, height) == Success
    requires root == TreeRoot(map[], bits, height) == entry.root && entry.kind != TryAuthKind
    ensures StateOk(crypt, bits, height, root, key, Some(Log(0, [entry, NO_ENTRY])), map[], trace + [TreeReset],
                    [Other, Other], true)
  {
    ResetHistory(crypt, key, bits, height, trace);
    EmptyHolding(bits, height, key);
  }

  // ----- keys that have not been used

  /** No leaf of this key is in the tree or in those the log tells of. */
  ghost predicate Unmentioned(root: Digest, nvLog: Option<Log>, n: nat) {
    && !Mentions(root, n)
    && (nvLog.Some? ==> forall k {:trigger nvLog.value.entries[k]} :: 0 <= k < |nvLog.value.entries| ==>
          !Mentions(nvLog.value.entries[k].root, n))
  }

  /** An update of the tree with the device's own key mentions no other. */
  lemma UpdateUnmentioned(fan: nat, l: nat, h: nat, hashes: seq<Digest>, d: Digest, d': Digest, root: Digest, log: Log,
                          entry: LogEntry, n: nat)
    requires fan >= 1 && Get(root, fan, h, l) == Some(Path(d, hashes)) && |hashes| == Count(fan, h)
    requires Unmentioned(root, Some(log), n) && |log.entries| == LOG_ENTRY_COUNT && !Mentions(d', n)
    requires entry.root == Climb(fan, l, h, hashes, d')
    ensures Unmentioned(entry.root, Some(Rolled(log, entry)), n)
  {
    ClimbGets(fan, l, h, hashes, d, root);
    ClimbUnmentioned(fan, l, h, hashes, d, d', n);
  }

  /** Under a key that has not been used, a root holds no leaf. */
  lemma StaleHolding(root: Digest, bits: nat, height: nat, key: nat)
    requires !Mentions(root, key)
    ensures Holding(root, bits, height, key, map[])
  {
    forall l: nat
      ensures HoldsAt(root, bits, height, key, map[], l)
    {
      var p := Get(root, TwoTo(bits), height, l);
      if p.Some? && OfKey(p.value.d, key) {
        ClimbGets(TwoTo(bits), l, height, p.value.siblings, p.value.d, root);
        ClimbMentions(TwoTo(bits), l, height, p.value.siblings, p.value.d, key);
      }
    }
  }

  function StaleStory(entry: LogEntry): Story { if entry.kind == TryAuthKind then Stale else Other }

  /** The state after a restart with the record of a reset that was only half stored: the new shape and key,
      over the old root and log. */
  lemma StaleOk(crypt: Cipher, bits: nat, height: nat, root: Digest, key: nat, nvLog: Option<Log>, trace: seq<Event>)
    requires Stream(crypt) && ValidateTreeParameters(bits, height) == Success && Unmentioned(root, nvLog, key)
    requires if nvLog.Some? then |nvLog.value.entries| == LOG_ENTRY_COUNT && nvLog.value.entries[0].root == root
             else root == Zero
    ensures StateOk(crypt, bits, height, root, key, nvLog, map[], trace + [TreeReset],
                    if nvLog.Some? then [StaleStory(nvLog.value.entries[0]), StaleStory(nvLog.value.entries[1])]
                        else [], false)
  {
    ResetHistory(crypt, key, bits, height, trace);
    StaleHolding(root, bits, height, key);
  }

  /** The first valid entry with this root is entry x. */
  ghost predicate Finds(log: Log, root: Digest, x: int) {
    && 0 <= x < |log.entries| && log.entries[x].kind != MtInvalid && log.entries[x].root == root
    && (forall k :: 0 <= k < x ==> log.entries[k].kind != MtInvalid && log.entries[k].root != root)
  }

  /** Replay leads to the logged root exactly when it makes the logged leaf, up to what the HMAC does
      not cover, on the logged path. */
  lemma ReplayMatches(key: nat, bits: nat, height: nat, entry: LogEntry, story: Story, leaf: Wrapped,
                      hashes: seq<Digest>)
    requires EntryOk(key, bits, height, entry, story) && story.Auth? && |leaf.iv| == 16
    requires |hashes| == Count(TwoTo(bits), height)
    ensures Climb(TwoTo(bits), entry.leafLabel, height, hashes, Replayed(key, leaf, entry).hmac) == entry.root
       <==> SameCovered(Replayed(key, leaf, entry), story.after) && hashes == story.hashes
  {
    var made := Replayed(key, leaf, entry);
    if Climb(TwoTo(bits), entry.leafLabel, height, hashes, made.hmac) == entry.root {
      ClimbInjective(TwoTo(bits), entry.leafLabel, height, hashes, made.hmac, story.hashes, story.after.hmac);
    }
  }

  /** No replay under the device's key leads to the root of an entry of a tree that was given up. */
  lemma StaleNeverReplays(key: nat, bits: nat, height: nat, entry: LogEntry, leaf: Wrapped, hashes: seq<Digest>)
    requires EntryOk(key, bits, height, entry, Stale) && |leaf.iv| == 16 && |hashes| == Count(TwoTo(bits), height)
    ensures Climb(TwoTo(bits), entry.leafLabel, height, hashes, Replayed(key, leaf, entry).hmac) != entry.root
  {
    ClimbMentions(TwoTo(bits), entry.leafLabel, height, hashes, Replayed(key, leaf, entry).hmac, key);
  }
}
