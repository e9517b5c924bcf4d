/** The Merkle tree of PinWeaver.  The device stores only the root; a request brings a leaf and the
    siblings of the nodes on its path.  Hashes are symbolic: distinct inputs have distinct digests,
    and no digest of an input is the all-zero digest of an empty leaf. */
module MerkleTree {
  import opened Common
  import opened Arithmetic

  datatype DelayEntry = DelayEntry(attempts: nat, delay: nat)

  datatype Timestamp = Timestamp(bootCount: nat, timer: nat)

  datatype Criterion = Criterion(bitmask: seq<uint8>, digest: seq<uint8>)

  /** struct leaf_public_data_t; a leaf of minor version 0 has no criteria. */
  datatype Public = Public(leafLabel: nat, schedule: seq<DelayEntry>, timestamp: Timestamp, attempts: nat,
                           criteria: seq<Criterion>)

  datatype Header = Header(major: nat, minor: nat, pubLen: nat, secLen: nat)

  /** A hash value: all zeros, the hash of a node's children, or the HMAC of a leaf. */
  datatype Digest =
    | Zero
    | Parent(children: seq<Digest>)
    | Mac(key: nat, head: Header, ivStart: seq<uint8>, pub: Public, cipherText: seq<uint8>)

  /** The digests at the leaves; the others are empty. */
  type Leaves = map<nat, Digest>

  ghost function At(m: Leaves, l: nat): Digest {
    if l in m then m[l] else Zero
  }

  /** The hash of the node of height h at position i of its level. */
  ghost function Node(m: Leaves, fan: nat, h: nat, i: nat): Digest
    decreases h, 0
  {
    if h == 0 then At(m, i) else Parent(Children(m, fan, h - 1, i))
  }

  /** The hashes below it. */
  ghost function Children(m: Leaves, fan: nat, h: nat, i: nat): (s: seq<Digest>)
    ensures |s| == fan
    decreases h, 1
  {
    seq(fan, k requires 0 <= k < fan => Node(m, fan, h, i * fan + k))
  }

  /** The position n levels up of what is at position i. */
  function Up(i: nat, fan: nat, n: nat): nat
    requires fan >= 1
  {
    if n == 0 then i else Up(i / fan, fan, n - 1)
  }

  function Without<T>(s: seq<T>, k: nat): seq<T>
    requires k < |s|
  {
    s[..k] + s[k + 1..]
  }

  function With<T>(s: seq<T>, k: nat, x: T): seq<T>
    requires k <= |s|
  {
    s[..k] + [x] + s[k..]
  }

  /** The number of hashes a path of n levels brings along. */
  function Count(fan: nat, n: nat): nat
    requires fan >= 1
  {
    if n == 0 then 0 else fan - 1 + Count(fan, n - 1)
  }

  /** The true siblings, level by level, on the path of n levels up from position i of level h. */
  ghost function Siblings(m: Leaves, fan: nat, h: nat, i: nat, n: nat): (s: seq<Digest>)
    requires fan >= 1
    ensures |s| == Count(fan, n)
    decreases n
  {
    if n == 0 then []
    else Without(Children(m, fan, h, i / fan), i % fan) + Siblings(m, fan, h + 1, i / fan, n - 1)
  }

  /** The hash n levels up that d and the siblings lead to. */
  function Climb(fan: nat, i: nat, n: nat, siblings: seq<Digest>, d: Digest): Digest
    requires fan >= 1 && |siblings| == Count(fan, n)
    decreases n
  {
    if n == 0 then d
    else Climb(fan, i / fan, n - 1, siblings[fan - 1..], Parent(With(siblings[..fan - 1], i % fan, d)))
  }

  // ----- climbing

  /** m and m' differ at most at the leaf l. */
  ghost predicate DifferAt(m: Leaves, m': Leaves, l: nat) {
    forall k: nat :: k != l ==> At(m, k) == At(m', k)
  }

  /** Child k of position i is at position i * fan + k, and is where it is by division. */
  lemma Position(i: nat, fan: nat, k: nat)
    requires k < fan
    ensures (i * fan + k) / fan == i && (i * fan + k) % fan == k
  {
    var q, r := (i * fan + k) / fan, (i * fan + k) % fan;
    assert (q - i) * fan == k - r;
    if q < i {
      Monotone(1, i - q, fan);
    } else if q > i {
      Monotone(1, q - i, fan);
    }
  }

  /** A node is the child of its parent that division says. */
  lemma ChildOfParent(m: Leaves, fan: nat, h: nat, i: nat)
    requires fan >= 1
    ensures Children(m, fan, h, i / fan)[i % fan] == Node(m, fan, h, i)
  {
    assert i / fan * fan + i % fan == i;
  }

  /** Nodes off the path of l do not see a change at l. */
  lemma {:induction false} NodeOffPath(m: Leaves, m': Leaves, l: nat, fan: nat, h: nat, i: nat)
    requires fan >= 1 && DifferAt(m, m', l) && Up(l, fan, h) != i
    ensures Node(m, fan, h, i) == Node(m', fan, h, i)
    decreases h
  {
    if h > 0 {
      var s, s' := Children(m, fan, h - 1, i), Children(m', fan, h - 1, i);
      UpOne(l, fan, h - 1);
      forall k | 0 <= k < fan
        ensures s[k] == s'[k]
      {
        Position(i, fan, k);
        NodeOffPath(m, m', l, fan, h - 1, i * fan + k);
      }
      assert s == s';
    }
  }

  lemma UpOne(i: nat, fan: nat, n: nat)
    requires fan >= 1
    ensures Up(i, fan, n + 1) == Up(i, fan, n) / fan
  {
    if n > 0 {
      UpOne(i / fan, fan, n - 1);
    }
  }

  /** Putting the taken-out child back, or another in its place. */
  lemma WithWithout<T>(s: seq<T>, k: nat, x: T)
    requires k < |s|
    ensures With(Without(s, k), k, x) == s[k := x]
  {
  }

  /** The children of the parent of a node on the path of l. */
  lemma ChildrenOnPath(m: Leaves, m': Leaves, l: nat, fan: nat, h: nat)
    requires fan >= 1 && DifferAt(m, m', l)
    ensures var i := Up(l, fan, h);
            Children(m', fan, h, i / fan) == Children(m, fan, h, i / fan)[i % fan := Node(m', fan, h, i)]
  {
    var i := Up(l, fan, h);
    var s, s' := Children(m, fan, h, i / fan), Children(m', fan, h, i / fan);
    ChildOfParent(m', fan, h, i);
    forall k | 0 <= k < fan && k != i % fan
      ensures s'[k] == s[k]
    {
      Position(i / fan, fan, k);
      NodeOffPath(m, m', l, fan, h, i / fan * fan + k);
    }
  }

  /** The siblings of m with the leaf l of m' lead to the root of m'. */
  lemma {:induction false} ClimbTrue(m: Leaves, m': Leaves, l: nat, fan: nat, h: nat, n: nat)
    requires fan >= 1 && DifferAt(m, m', l)
    ensures var i := Up(l, fan, h);
            Climb(fan, i, n, Siblings(m, fan, h, i, n), Node(m', fan, h, i)) == Node(m', fan, h + n, Up(l, fan, h + n))
    decreases n
  {
    if n > 0 {
      var i := Up(l, fan, h);
      UpOne(l, fan, h);
      ChildrenOnPath(m, m', l, fan, h);
      var level, above := Without(Children(m, fan, h, i / fan), i % fan), Siblings(m, fan, h + 1, i / fan, n - 1);
      WithWithout(Children(m, fan, h, i / fan), i % fan, Node(m', fan, h, i));
      assert (level + above)[..fan - 1] == level && (level + above)[fan - 1..] == above;
      ClimbTrue(m, m', l, fan, h + 1, n - 1);
    }
  }

  lemma WithInjective<T>(s: seq<T>, t: seq<T>, k: nat, x: T, y: T)
    requires |s| == |t| && k <= |s| && With(s, k, x) == With(t, k, y)
    ensures s == t && x == y
  {
    var u, v := With(s, k, x), With(t, k, y);
    assert u[..k] == s[..k] && v[..k] == t[..k];
    assert u[k] == x && v[k] == y;
    assert u[k + 1..] == s[k..] && v[k + 1..] == t[k..];
    assert s == s[..k] + s[k..] && t == t[..k] + t[k..];
  }

  /** Two paths from the same position to the same root are one path. */
  lemma {:induction false} ClimbInjective(fan: nat, i: nat, n: nat, s: seq<Digest>, d: Digest, t: seq<Digest>,
                                          e: Digest)
    requires fan >= 1 && |s| == |t| == Count(fan, n)
    requires Climb(fan, i, n, s, d) == Climb(fan, i, n, t, e)
    ensures s == t && d == e
    decreases n
  {
    if n > 0 {
      var p, q := Parent(With(s[..fan - 1], i % fan, d)), Parent(With(t[..fan - 1], i % fan, e));
      ClimbInjective(fan, i / fan, n - 1, s[fan - 1..], p, t[fan - 1..], q);
      WithInjective(s[..fan - 1], t[..fan - 1], i % fan, d, e);
      assert s == s[..fan - 1] + s[fan - 1..] && t == t[..fan - 1] + t[fan - 1..];
    }
  }

  /** Without leaves, all nodes of a level are equal. */
  lemma {:induction false} EmptyLevel(fan: nat, h: nat, i: nat)
    ensures Node(map[], fan, h, i) == Node(map[], fan, h, 0)
  {
    if h > 0 {
      var s, t := Children(map[], fan, h - 1, i), Children(map[], fan, h - 1, 0);
      forall k | 0 <= k < fan
        ensures s[k] == t[k]
      {
        EmptyLevel(fan, h - 1, i * fan + k);
        EmptyLevel(fan, h - 1, 0 * fan + k);
      }
      assert s == t;
    }
  }

  // ----- reading a tree off its root

  /** A digest in a tree, and the siblings on the path to it, level by level. */
  datatype Path = Path(d: Digest, siblings: seq<Digest>)

  /** What a root holds n levels down, at position i: hashes stand for what was hashed. */
  function Get(root: Digest, fan: nat, n: nat, i: nat): (p: Option<Path>)
    requires fan >= 1
    ensures p.Some? ==> |p.value.siblings| == Count(fan, n)
  {
    if n == 0 then Some(Path(root, [])) else Child(Get(root, fan, n - 1, i / fan), fan, i % fan)
  }

  /** One level down, to child k. */
  function Child(p: Option<Path>, fan: nat, k: nat): (c: Option<Path>)
    requires k < fan
    ensures c.Some? ==> p.Some? && |c.value.siblings| == fan - 1 + |p.value.siblings|
  {
    match p
    case Some(Path(Parent(s), above)) => if |s| == fan then Some(Path(s[k], Without(s, k) + above)) else None
    case _ => None
  }

  function DigestAt(root: Digest, fan: nat, n: nat, i: nat): Option<Digest>
    requires fan >= 1
  {
    DigestOf(Get(root, fan, n, i))
  }

  function DigestOf(p: Option<Path>): Option<Digest> {
    match p
    case Some(path) => Some(path.d)
    case None => None
  }

  lemma ChildIs(p: Option<Path>, fan: nat, k: nat, level: seq<Digest>, above: seq<Digest>, d: Digest)
    requires k < fan == |level| + 1
    ensures p == Some(Path(Parent(With(level, k, d)), above)) <==> Child(p, fan, k) == Some(Path(d, level + above))
  {
    var c := With(level, k, d);
    assert c[k] == d && Without(c, k) == level;
    if Child(p, fan, k) == Some(Path(d, level + above)) {
      var s, up := p.value.d.children, p.value.siblings;
      assert (Without(s, k) + up)[..fan - 1] == Without(s, k) && (Without(s, k) + up)[fan - 1..] == up;
      assert (level + above)[..fan - 1] == level && (level + above)[fan - 1..] == above;
      assert With(Without(s, k), k, s[k]) == s;
    }
  }

  /** A path leads to a root exactly when it is the path the root holds. */
  lemma {:induction false} ClimbGets(fan: nat, i: nat, n: nat, s: seq<Digest>, d: Digest, root: Digest)
    requires fan >= 1 && |s| == Count(fan, n)
    ensures Climb(fan, i, n, s, d) == root <==> Get(root, fan, n, i) == Some(Path(d, s))
    decreases n
  {
    if n > 0 {
      var level, above, k := s[..fan - 1], s[fan - 1..], i % fan;
      ClimbGets(fan, i / fan, n - 1, above, Parent(With(level, k, d)), root);
      ChildIs(Get(root, fan, n - 1, i / fan), fan, k, level, above, d);
      assert level + above == s;
    } else {
      assert s == [];
    }
  }

  /** Two children of one parent, of which another is replaced, or two equal parents. */
  lemma ChildElsewhere(p: Option<Path>, q: Option<Path>, fan: nat, k: nat, j: nat, level: seq<Digest>, up: seq<Digest>,
                       up': seq<Digest>, d: Digest, d': Digest)
    requires k < fan == |level| + 1 && j < fan
    requires DigestOf(p) == DigestOf(q)
             || (j != k && p == Some(Path(Parent(With(level, k, d)), up))
                 && q == Some(Path(Parent(With(level, k, d')), up')))
    ensures DigestOf(Child(p, fan, j)) == DigestOf(Child(q, fan, j))
  {
  }

  /** Replacing one digest leaves those at other positions. */
  lemma {:induction false} GetElsewhere(fan: nat, n: nat, i: nat, j: nat, s: seq<Digest>, d: Digest, d': Digest,
                                        root: Digest, root': Digest)
    requires fan >= 1 && |s| == Count(fan, n) && i != j && Up(i, fan, n) == Up(j, fan, n)
    requires Climb(fan, i, n, s, d) == root && Climb(fan, i, n, s, d') == root'
    ensures DigestAt(root, fan, n, j) == DigestAt(root', fan, n, j)
    decreases n, 0
  {
    if n > 0 {
      FirstStep(fan, n, i, j, s, d, d', i / fan, j / fan, i % fan, j % fan, root, root');
    }
  }

  lemma FirstStep(fan: nat, n: nat, i: nat, j: nat, s: seq<Digest>, d: Digest, d': Digest, pi: nat, pj: nat, k: nat,
                  l: nat,
                  root: Digest, root': Digest)
    requires fan >= 1 && n > 0 && |s| == Count(fan, n) && i != j && Up(i, fan, n) == Up(j, fan, n)
    requires pi == i / fan && pj == j / fan && k == i % fan && l == j % fan
    requires Climb(fan, i, n, s, d) == root && Climb(fan, i, n, s, d') == root'
    ensures DigestAt(root, fan, n, j) == DigestAt(root', fan, n, j)
    decreases n - 1, 3
  {
    var level, above := s[..fan - 1], s[fan - 1..];
    OneUp(i, j, fan, n);
    assert Climb(fan, pi, n - 1, above, Parent(With(level, k, d))) == root;
    assert Climb(fan, pi, n - 1, above, Parent(With(level, k, d'))) == root';
    StepElsewhere(fan, n - 1, pi, pj, k, l, level, above, d, d', root, root');
  }

  /** The same for child k of position i and child l of position j. */
  lemma StepElsewhere(fan: nat, n: nat, i: nat, j: nat, k: nat, l: nat, level: seq<Digest>, above: seq<Digest>,
                      d: Digest, d': Digest, root: Digest, root': Digest)
    requires k < fan == |level| + 1 && l < fan && |above| == Count(fan, n) && Up(i, fan, n) == Up(j, fan, n)
    requires i == j ==> k != l
    requires Climb(fan, i, n, above, Parent(With(level, k, d))) == root
    requires Climb(fan, i, n, above, Parent(With(level, k, d'))) == root'
    ensures DigestOf(Child(Get(root, fan, n, j), fan, l)) == DigestOf(Child(Get(root', fan, n, j), fan, l))
    decreases n, 2
  {
    var p, q := Get(root, fan, n, j), Get(root', fan, n, j);
    ParentsElsewhere(fan, n, i, j, k, l, above, Parent(With(level, k, d)), Parent(With(level, k, d')), root, root');
    ChildElsewhere(p, q, fan, k, l, level, above, above, d, d');
  }

  lemma OneUp(i: nat, j: nat, fan: nat, n: nat)
    requires fan >= 1 && n > 0 && i != j && Up(i, fan, n) == Up(j, fan, n)
    ensures Up(i / fan, fan, n - 1) == Up(j / fan, fan, n - 1) && (i / fan == j / fan ==> i % fan != j % fan)
  {
    if i / fan == j / fan {
      SameRemainder(i, j, fan);
    }
  }

  /** The parents of the two positions: those of one replaced and the other, or one that is replaced. */
  lemma ParentsElsewhere(fan: nat, n: nat, i: nat, j: nat, k: nat, l: nat, above: seq<Digest>, c: Digest, c': Digest,
                         root: Digest, root': Digest)
    requires fan >= 1 && |above| == Count(fan, n) && Up(i, fan, n) == Up(j, fan, n) && (i == j ==> k != l)
    requires Climb(fan, i, n, above, c) == root && Climb(fan, i, n, above, c') == root'
    ensures var p, q := Get(root, fan, n, j), Get(root', fan, n, j);
            DigestOf(p) == DigestOf(q) || (k != l && p == Some(Path(c, above)) && q == Some(Path(c', above)))
    decreases n, 1
  {
    if i == j {
      ClimbGets(fan, i, n, above, c, root);
      ClimbGets(fan, i, n, above, c', root');
    } else {
      GetElsewhere(fan, n, i, j, above, c, c', root, root');
    }
  }

  lemma SameRemainder(i: nat, j: nat, fan: nat)
    requires fan >= 1 && i / fan == j / fan && i != j
    ensures i % fan != j % fan
  {
    assert i == fan * (i / fan) + i % fan && j == fan * (j / fan) + j % fan;
  }

  /** The root of a tree of leaves holds them. */
  lemma RootHolds(m: Leaves, fan: nat, h: nat, l: nat)
    requires fan >= 1 && Up(l, fan, h) == 0
    ensures Get(Node(m, fan, h, 0), fan, h, l) == Some(Path(At(m, l), Siblings(m, fan, 0, l, h)))
  {
    ClimbTrue(m, m, l, fan, 0, h);
    ClimbGets(fan, l, h, Siblings(m, fan, 0, l, h), At(m, l), Node(m, fan, h, 0));
  }

  /** The all-zero root holds nothing. */
  lemma {:induction false} ZeroHolds(fan: nat, n: nat, i: nat)
    requires fan >= 1 && n >= 1
    ensures Get(Zero, fan, n, i) == None
  {
    if n > 1 {
      ZeroHolds(fan, n - 1, i / fan);
      NothingBelow(fan, i % fan);
    } else {
      assert Get(Zero, fan, 0, i / fan) == Some(Path(Zero, []));
    }
  }

  lemma NothingBelow(fan: nat, k: nat)
    requires k < fan
    ensures Child(None, fan, k) == None
  {
  }

  // ----- keys

  /** A leaf of this key went into a digest. */
  ghost predicate Mentions(d: Digest, key: nat) {
    match d
    case Zero => false
    case Parent(s) => exists k :: 0 <= k < |s| && Mentions(s[k], key)
    case Mac(k, _, _, _, _) => k == key
  }

  lemma {:induction false} ClimbMentions(fan: nat, i: nat, n: nat, s: seq<Digest>, d: Digest, key: nat)
    requires fan >= 1 && |s| == Count(fan, n) && Mentions(d, key)
    ensures Mentions(Climb(fan, i, n, s, d), key)
    decreases n
  {
    if n > 0 {
      var children := With(s[..fan - 1], i % fan, d);
      assert children[i % fan] == d;
      assert Mentions(Parent(children), key);
      ClimbMentions(fan, i / fan, n - 1, s[fan - 1..], Parent(children), key);
    }
  }

  /** Replacing a digest by one that does not mention a key brings in no mention of it. */
  lemma {:induction false} ClimbUnmentioned(fan: nat, i: nat, n: nat, s: seq<Digest>, d: Digest, d': Digest, key: nat)
    requires fan >= 1 && |s| == Count(fan, n)
    requires !Mentions(Climb(fan, i, n, s, d), key) && !Mentions(d', key)
    ensures !Mentions(Climb(fan, i, n, s, d'), key)
    decreases n
  {
    if n > 0 {
      var level, above, k := s[..fan - 1], s[fan - 1..], i % fan;
      var c, c' := With(level, k, d), With(level, k, d');
      if Mentions(Parent(c), key) {
        ClimbMentions(fan, i / fan, n - 1, above, Parent(c), key);
      }
      forall x | 0 <= x < |c'|
        ensures !Mentions(c'[x], key)
      {
        assert x == k || c'[x] == c[x];
      }
      ClimbUnmentioned(fan, i / fan, n - 1, above, Parent(c), Parent(c'), key);
    }
  }

  lemma {:induction false} EmptyUnmentioned(fan: nat, h: nat, i: nat, key: nat)
    ensures !Mentions(Node(map[], fan, h, i), key)
  {
    if h > 0 {
      var s := Children(map[], fan, h - 1, i);
      forall k | 0 <= k < |s|
        ensures !Mentions(s[k], key)
      {
        EmptyUnmentioned(fan, h - 1, i * fan + k, key);
      }
    }
  }
}
