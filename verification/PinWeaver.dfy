/** PinWeaver: low-entropy credentials kept off the device, under a Merkle tree whose root the
    device stores, with the count of failed attempts inside each leaf. */
module PinWeaver {
  import opened Common
  import opened Arithmetic
  import opened Bitwise
  import opened MerkleTree

  const UINT32_MAX: nat := 0xffff_ffff
  const BLOCK_ATTEMPTS: nat := UINT32_MAX
  const SCHED_COUNT: nat := 16
  const PCR_CRITERIA_COUNT: nat := 2
  const HASH_SIZE: nat := 32
  const SECRET_SIZE: nat := 32
  const MAX_PATH_SIZE: nat := 1024
  const RESTART_TIMER_THRESHOLD: nat := 10_000_000

  // sizeof(struct leaf_public_data_t) and of struct leaf_sensitive_data_t.
  const PUB_LEN: nat := 220
  const SEC_LEN: nat := 96
  const CRITERIA_SIZE: nat := 68

  const MAJOR_VERSION: nat := 0
  const MINOR_VERSION: nat := 1
  const CURRENT_HEADER := Header(MAJOR_VERSION, MINOR_VERSION, PUB_LEN, SEC_LEN)

  datatype Code =
    | Success | TreeInvalid | LengthInvalid | TypeInvalid | BitsPerLevelInvalid | HeightInvalid
    | LabelInvalid | DelayScheduleInvalid | PathAuthFailed | LeafVersionMismatch | HmacAuthFailed
    | LowentAuthFailed | ResetAuthFailed | RateLimitReached | RootNotFound | NvEmpty | NvFailure
    | PcrNotMatch

  // ----- leaves

  /** struct wrapped_leaf_data_t */
  datatype Wrapped = Wrapped(head: Header, hmac: Digest, iv: seq<uint8>, pub: Public, cipherText: seq<uint8>)

  /** compute_hmac.  sizeof(PW_WRAP_BLOCK_SIZE) is the size of an int, so of the IV only the first
      four bytes are covered. */
  function MacOf(key: nat, head: Header, iv: seq<uint8>, pub: Public, cipherText: seq<uint8>): Digest
    requires |iv| == 16
  {
    Mac(key, head, iv[..4], pub, cipherText)
  }

  /** The leaf handle_leaf_update makes of new metadata and a kept IV and cipher text. */
  function Wrap(key: nat, iv: seq<uint8>, pub: Public, cipherText: seq<uint8>): Wrapped
    requires |iv| == 16
  {
    Wrapped(CURRENT_HEADER, MacOf(key, CURRENT_HEADER, iv, pub, cipherText), iv, pub, cipherText)
  }

  /** Equal in everything the HMAC covers. */
  ghost predicate SameCovered(a: Wrapped, b: Wrapped) {
    && |a.iv| == |b.iv| == 16
    && a.head == b.head && a.iv[..4] == b.iv[..4] && a.pub == b.pub && a.cipherText == b.cipherText
  }

  // ----- delay schedules

  /** validate_delay_schedule: scans the table from its end. */
  method ValidateDelaySchedule(s: seq<DelayEntry>) returns (code: Code)
    requires |s| == SCHED_COUNT
    ensures code == if ScheduleValid(s) then Success else DelayScheduleInvalid
  {
    if s[0].delay == 0 {
      return DelayScheduleInvalid;
    }
    for x := SCHED_COUNT downto 1
      invariant forall k :: x <= k < SCHED_COUNT ==> RowValid(s, k)
    {
      if s[x].attempts == 0 {
        if s[x].delay != 0 {
          assert !RowValid(s, x);
          return DelayScheduleInvalid;
        }
      } else if s[x].attempts <= s[x - 1].attempts || s[x].delay <= s[x - 1].delay {
        assert !RowValid(s, x);
        return DelayScheduleInvalid;
      }
    }
    return Success;
  }

  /** Row k is filler, or exceeds the row before it in both columns. */
  ghost predicate RowValid(s: seq<DelayEntry>, k: nat)
    requires 1 <= k < |s|
  {
    if s[k].attempts == 0 then s[k].delay == 0
    else s[k].attempts > s[k - 1].attempts && s[k].delay > s[k - 1].delay
  }

  ghost predicate ScheduleValid(s: seq<DelayEntry>)
    requires |s| == SCHED_COUNT
  {
    s[0].delay != 0 && forall k :: 1 <= k < SCHED_COUNT ==> RowValid(s, k)
  }

  /** The number of rows before the first with a count of zero. */
  ghost function UsedRows(s: seq<DelayEntry>): (n: nat)
    ensures n <= |s| && (forall k :: 0 <= k < n ==> s[k].attempts != 0) && (n < |s| ==> s[n].attempts == 0)
  {
    if s == [] || s[0].attempts == 0 then 0 else 1 + UsedRows(s[1..])
  }

  /** d is the delay after a failed attempts: that of the last used row whose count has been reached. */
  ghost predicate IsDelay(s: seq<DelayEntry>, a: nat, d: nat) {
    || (d == 0 && forall k :: 0 <= k < UsedRows(s) ==> a < s[k].attempts)
    || (exists r :: 0 <= r < UsedRows(s) && d == s[r].delay && s[r].attempts <= a
          && forall k :: r < k < UsedRows(s) ==> a < s[k].attempts)
  }

  /** In a valid schedule the used rows increase strictly in both columns. */
  lemma {:induction false} RowsIncrease(s: seq<DelayEntry>, j: nat, k: nat)
    requires |s| == SCHED_COUNT && ScheduleValid(s) && j < k < UsedRows(s)
    ensures s[j].attempts < s[k].attempts && s[j].delay < s[k].delay
  {
    assert RowValid(s, k);
    if j + 1 < k {
      RowsIncrease(s, j, k - 1);
    }
  }

  /** The delay of a valid schedule does not drop as attempts fail. */
  lemma DelayMonotone(s: seq<DelayEntry>, a: nat, b: nat, d: nat, e: nat)
    requires |s| == SCHED_COUNT && ScheduleValid(s) && a <= b && IsDelay(s, a, d) && IsDelay(s, b, e)
    ensures d <= e
  {
    if d != 0 {
      var r :| 0 <= r < UsedRows(s) && d == s[r].delay && s[r].attempts <= a
               && forall k :: r < k < UsedRows(s) ==> a < s[k].attempts;
      assert !(forall k :: 0 <= k < UsedRows(s) ==> b < s[k].attempts);
      var q :| 0 <= q < UsedRows(s) && e == s[q].delay && s[q].attempts <= b
               && forall k :: q < k < UsedRows(s) ==> b < s[k].attempts;
      if r < q {
        RowsIncrease(s, r, q);
      }
    }
  }

  /** The rows the loop of test_rate_limit passes, and the delay of the last of them. */
  ghost function PassedRows(s: seq<DelayEntry>, attempts: nat): (n: nat)
    ensures n <= |s|
  {
    if s == [] || s[0].attempts == 0 || attempts < s[0].attempts then 0 else 1 + PassedRows(s[1..], attempts)
  }

  ghost function DelayAfter(s: seq<DelayEntry>, attempts: nat): nat {
    var n := PassedRows(s, attempts);
    if n > 0 then s[n - 1].delay else 0
  }

  lemma {:induction false} PassedRowsStop(s: seq<DelayEntry>, attempts: nat, x: nat)
    requires x <= |s| && (forall k :: 0 <= k < x ==> s[k].attempts != 0 && s[k].attempts <= attempts)
    requires x < |s| ==> s[x].attempts == 0 || attempts < s[x].attempts
    ensures PassedRows(s, attempts) == x
  {
    if x > 0 {
      PassedRowsStop(s[1..], attempts, x - 1);
    }
  }

  lemma {:induction false} PassedRowsAre(s: seq<DelayEntry>, attempts: nat)
    ensures var n := PassedRows(s, attempts);
      && n <= UsedRows(s)
      && (forall k :: 0 <= k < n ==> s[k].attempts <= attempts)
      && (n < UsedRows(s) ==> attempts < s[n].attempts)
  {
    if s != [] && s[0].attempts != 0 && s[0].attempts <= attempts {
      PassedRowsAre(s[1..], attempts);
    }
  }

  /** For a valid schedule, the loop finds the delay the table means. */
  lemma DelayAfterIsDelay(s: seq<DelayEntry>, attempts: nat)
    requires |s| == SCHED_COUNT && ScheduleValid(s)
    ensures IsDelay(s, attempts, DelayAfter(s, attempts))
  {
    PassedRowsAre(s, attempts);
    var n := PassedRows(s, attempts);
    forall k | n <= k < UsedRows(s)
      ensures attempts < s[k].attempts
    {
      if n < k {
        RowsIncrease(s, n, k);
      }
    }
  }

  /** More failed attempts never mean a shorter delay. */
  lemma DelayNeverDrops(s: seq<DelayEntry>, a: nat, b: nat)
    requires |s| == SCHED_COUNT && ScheduleValid(s) && a <= b
    ensures DelayAfter(s, a) <= DelayAfter(s, b)
  {
    DelayAfterIsDelay(s, a);
    DelayAfterIsDelay(s, b);
    DelayMonotone(s, a, b, DelayAfter(s, a), DelayAfter(s, b));
  }

  method RequiredDelay(s: seq<DelayEntry>, attempts: nat) returns (delay: nat)
    requires |s| == SCHED_COUNT
    ensures delay == DelayAfter(s, attempts)
  {
    var x := 0;
    while x < SCHED_COUNT
      invariant 0 <= x <= SCHED_COUNT
      invariant forall k :: 0 <= k < x ==> s[k].attempts != 0 && s[k].attempts <= attempts
    {
      if s[x].attempts == 0 {
        break;
      }
      if attempts < s[x].attempts {
        break;
      }
      x := x + 1;
    }
    PassedRowsStop(s, attempts, x);
    delay := if x > 0 then s[x - 1].delay else 0;
  }

  /** A leaf may not be tried yet: for good, or until the delay has run since the last try, counted
      from boot when the device has rebooted in between. */
  ghost predicate TooEarly(pub: Public, boot: nat, now: nat) {
    var delay := DelayAfter(pub.schedule, pub.attempts);
    && delay != 0
    && (delay == BLOCK_ATTEMPTS || now < delay + (if pub.timestamp.bootCount == boot then pub.timestamp.timer else 0))
  }

  /** test_rate_limit */
  method TestRateLimit(pub: Public, boot: nat, now: nat) returns (code: Code, wait: nat)
    requires |pub.schedule| == SCHED_COUNT
    ensures code == if TooEarly(pub, boot, now) then RateLimitReached else Success
    ensures code == RateLimitReached ==> wait > 0
    ensures code == RateLimitReached && wait != BLOCK_ATTEMPTS ==> !TooEarly(pub, boot, now + wait)
  {
    wait := 0;
    var delay := RequiredDelay(pub.schedule, pub.attempts);
    if delay == 0 {
      return Success, 0;
    }
    if delay == BLOCK_ATTEMPTS {
      return RateLimitReached, BLOCK_ATTEMPTS;
    }
    var ready := if pub.timestamp.bootCount == boot then delay + pub.timestamp.timer else delay;
    if now >= ready {
      return Success, 0;
    }
    return RateLimitReached, ready - now;
  }

  // ----- parameters

  /** validate_tree_parameters */
  function ValidateTreeParameters(bits: nat, height: nat): Code {
    if bits < 1 || bits > 5 then BitsPerLevelInvalid
    else if height < 1 || height > 64 / bits || (TwoTo(bits) - 1) * height * HASH_SIZE > MAX_PATH_SIZE
    then HeightInvalid
    else Success
  }

  /** Labels of a valid tree have at most 32 bits, so the shift in validate_label stays below the
      width of its operand. */
  lemma LabelWidth(bits: nat, height: nat)
    requires ValidateTreeParameters(bits, height) == Success
    ensures bits * height <= 32
  {
    var f := TwoTo(bits) - 1;
    assert f >= bits by {
      assert TwoTo(1) == 2 && TwoTo(2) == 4 && TwoTo(3) == 8 && TwoTo(4) == 16 && TwoTo(5) == 32;
    }
    Monotone(bits, f, height);
  }

  /** validate_label: no bits above the path. */
  predicate LabelFits(l: nat, bits: nat, height: nat) { l / TwoTo(bits * height) == 0 }

  lemma {:induction false} LabelReachesRoot(l: nat, bits: nat, height: nat)
    ensures Up(l, TwoTo(bits), height) == l / TwoTo(bits * height)
  {
    UpDivides(l, TwoTo(bits), height, bits, bits * height);
  }

  lemma {:induction false} UpDivides(l: nat, fan: nat, n: nat, bits: nat, width: nat)
    requires fan == TwoTo(bits) && width == bits * n
    ensures Up(l, fan, n) == l / TwoTo(width)
    decreases n
  {
    if n == 0 {
      assert width == 0;
    } else {
      assert width - bits == bits * (n - 1) by {
        Distribute(bits, 1, n - 1, 1);
      }
      UpDivides(l, fan, n - 1, bits, width - bits);
      UpOne(l, fan, n - 1);
      TwoToAdd(width - bits, bits);
      DivideTwice(l, TwoTo(width - bits), fan, TwoTo(width));
    }
  }

  lemma DivideTwice(l: nat, a: nat, b: nat, c: nat)
    requires a >= 1 && b >= 1 && c == a * b && c >= 1
    ensures l / a / b == l / c
  {
    var q := l / a;
    Combine(l, a, b, c, q, l % a, q / b, q % b);
    Quotient(l, c, q / b, l - c * (q / b));
  }

  lemma Combine(l: nat, a: nat, b: nat, c: nat, q: nat, r: nat, p: nat, s: nat)
    requires l == a * q + r && r < a && q == b * p + s && s < b && c == a * b
    ensures 0 <= l - c * p < c
  {
    Rest(a, b, s, r);
    Distribute(a, b, p, s);
  }

  lemma Distribute(a: nat, b: nat, p: nat, s: nat)
    ensures a * (b * p + s) == a * b * p + a * s
  {
  }

  lemma Rest(a: nat, b: nat, s: nat, r: nat)
    requires s < b && r < a
    ensures 0 <= a * s + r < a * b
  {
    Monotone(s + 1, b, a);
    assert (s + 1) * a == a * s + a;
  }

}
