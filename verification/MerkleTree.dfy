/** The Merkle tree of RFC 6962, sections 2.1 and 2.1.1, over an arbitrary
    hash function, and its reading level by level.

    The hash is a parameter of every definition.  Nothing is assumed about it:
    results that would need collision resistance name a collision instead. */
module MerkleTree {
  import opened Bits
  import opened Bytes

  type Digest = d: seq<byte> | |d| == 32 witness seq(32, _ => 0)
  type HashFunction = seq<byte> -> Digest

  /** The string hashed for an interior node: 0x01, left child, right child. */
  function InnerInput(left: Digest, right: Digest): seq<byte> {
    [0x01] + left + right
  }

  function InnerHash(H: HashFunction, left: Digest, right: Digest): Digest {
    H(InnerInput(left, right))
  }

  /** The hash of a leaf: 0x00 followed by the entry's octets. */
  function LeafHash(H: HashFunction, entry: seq<byte>): Digest {
    H([0x00] + entry)
  }

  function LeafHashes(H: HashFunction, entries: seq<seq<byte>>): (hashes: seq<Digest>)
    ensures |hashes| == |entries|
    ensures forall i :: 0 <= i < |entries| ==> hashes[i] == LeafHash(H, entries[i])
  {
    seq(|entries|, i requires 0 <= i < |entries| => LeafHash(H, entries[i]))
  }

  /** Where RFC 6962 splits `n > 1` leaves: see SplitPointIsLargestPower. */
  function SplitPoint(n: nat): (k: nat)
    requires n > 1
    ensures k < n <= 2 * k
  {
    if n == 2 then 1 else 2 * SplitPoint((n + 1) / 2)
  }

  ghost predicate IsPowerOfTwo(k: nat) {
    k == 1 || (k > 1 && k % 2 == 0 && IsPowerOfTwo(k / 2))
  }

  /** The split point is the largest power of two smaller than `n`. */
  lemma {:induction false} SplitPointIsLargestPower(n: nat, p: nat)
    requires n > 1
    ensures IsPowerOfTwo(SplitPoint(n))
    ensures IsPowerOfTwo(p) && p < n ==> p <= SplitPoint(n)
  {
    if n <= 2 {
    } else {
      SplitPointIsLargestPower((n + 1) / 2, p / 2);
    }
  }

  /** MTH over the leaf hashes of a non-empty log. */
  function TreeHash(H: HashFunction, leaves: seq<Digest>): Digest
    requires |leaves| > 0
  {
    if |leaves| == 1 then
      leaves[0]
    else
      var k := SplitPoint(|leaves|);
      InnerHash(H, TreeHash(H, leaves[..k]), TreeHash(H, leaves[k..]))
  }

  /** PATH(m, D): the siblings from leaf `m` up to the root, innermost first. */
  function AuditPath(H: HashFunction, m: nat, leaves: seq<Digest>): seq<Digest>
    requires m < |leaves|
    decreases |leaves|
  {
    if |leaves| == 1 then
      []
    else
      var k := SplitPoint(|leaves|);
      if m < k then
        AuditPath(H, m, leaves[..k]) + [TreeHash(H, leaves[k..])]
      else
        AuditPath(H, m - k, leaves[k..]) + [TreeHash(H, leaves[..k])]
  }

  /** Is `x` hashed for an interior node while the tree is computed? */
  predicate HashedByTree(H: HashFunction, leaves: seq<Digest>, x: seq<byte>)
    requires |leaves| > 0
  {
    |leaves| > 1 &&
    var k := SplitPoint(|leaves|);
    || x == InnerInput(TreeHash(H, leaves[..k]), TreeHash(H, leaves[k..]))
    || HashedByTree(H, leaves[..k], x)
    || HashedByTree(H, leaves[k..], x)
  }

  // ----- the definitions in the octets of RFC 6962 -----

  /** Section 2.1: the hash of an entry, of one leaf, and of more leaves split at the
      largest power of two below their number. */
  lemma {:induction false} TreeHashByRfc(H: HashFunction, entry: seq<byte>, leaves: seq<Digest>, s: nat)
    requires Pow2(s) < |leaves| <= 2 * Pow2(s)
    ensures LeafHash(H, entry) == H([0x00] + entry)
    ensures TreeHash(H, leaves[..1]) == leaves[0]
    ensures var k := Pow2(s);
            TreeHash(H, leaves) == H([0x01] + TreeHash(H, leaves[..k]) + TreeHash(H, leaves[k..]))
  {
    SplitPointIsPow2(|leaves|, s);
  }

  /** Section 2.1.1: the path of a leaf is empty when it is alone, and otherwise that in
      its own half followed by the hash of the other half. */
  lemma AuditPathByRfc(H: HashFunction, m: nat, leaves: seq<Digest>, s: nat)
    requires Pow2(s) < |leaves| <= 2 * Pow2(s) && m < |leaves|
    ensures AuditPath(H, 0, leaves[..1]) == []
    ensures var k := Pow2(s);
            AuditPath(H, m, leaves)
            == if m < k then AuditPath(H, m, leaves[..k]) + [TreeHash(H, leaves[k..])]
               else AuditPath(H, m - k, leaves[k..]) + [TreeHash(H, leaves[..k])]
  {
    SplitPointIsPow2(|leaves|, s);
  }

  /** What is hashed for an interior node is never what is hashed for an entry. */
  lemma {:induction false} NodesAreNotEntries(H: HashFunction, leaves: seq<Digest>, x: seq<byte>, entry: seq<byte>)
    requires leaves != [] && HashedByTree(H, leaves, x)
    ensures |x| == 65 && x[0] == 0x01 && x != [0x00] + entry
  {
    var k := SplitPoint(|leaves|);
    if HashedByTree(H, leaves[..k], x) {
      NodesAreNotEntries(H, leaves[..k], x, entry);
    } else if HashedByTree(H, leaves[k..], x) {
      NodesAreNotEntries(H, leaves[k..], x, entry);
    }
  }

  // ----- the same tree, one level at a time -----

  /** Node `j` of the level above: the hash of a pair, or a promoted last node. */
  function ParentAt(H: HashFunction, level: seq<Digest>, j: nat): Digest
    requires 2 * j < |level|
  {
    if 2 * j + 1 < |level| then InnerHash(H, level[2 * j], level[2 * j + 1]) else level[2 * j]
  }

  function NextLevel(H: HashFunction, level: seq<Digest>): (next: seq<Digest>)
    ensures |next| == (|level| + 1) / 2
    ensures forall j :: 0 <= j < |next| ==> next[j] == ParentAt(H, level, j)
  {
    seq((|level| + 1) / 2, j requires 0 <= j < (|level| + 1) / 2 => ParentAt(H, level, j))
  }

  /** The sibling that leaf `m` is paired with, if it is not a promoted node. */
  function SiblingPart(m: nat, level: seq<Digest>): seq<Digest>
    requires m < |level|
  {
    if m % 2 == 1 then [level[m - 1]]
    else if m + 1 < |level| then [level[m + 1]]
    else []
  }

  /** Above two leaves the split point is even and the level above is split at
      half of it. */
  lemma {:induction false} SplitHalves(n: nat)
    requires n > 2
    ensures var k := SplitPoint(n); k % 2 == 0 && SplitPoint((n + 1) / 2) == k / 2
  {
  }

  /** Pairing never crosses the split point: the two halves of the next level
      are the next levels of the two halves. */
  lemma {:induction false} LevelSplits(H: HashFunction, leaves: seq<Digest>)
    requires |leaves| > 2
    ensures var k, next := SplitPoint(|leaves|), NextLevel(H, leaves);
            && |next| > 1 && k % 2 == 0 && SplitPoint(|next|) == k / 2
            && next[..k / 2] == NextLevel(H, leaves[..k])
            && next[k / 2..] == NextLevel(H, leaves[k..])
  {
    var k := SplitPoint(|leaves|);
    SplitHalves(|leaves|);
    assert k == 2 * (k / 2);
  }

  /** The root is unchanged when a level is replaced by the level above it. */
  lemma {:induction false} RootOfNextLevel(H: HashFunction, leaves: seq<Digest>)
    requires |leaves| > 0
    ensures TreeHash(H, NextLevel(H, leaves)) == TreeHash(H, leaves)
    decreases |leaves|
  {
    if |leaves| <= 2 {
    } else {
      var k := SplitPoint(|leaves|);
      LevelSplits(H, leaves);
      RootOfNextLevel(H, leaves[..k]);
      RootOfNextLevel(H, leaves[k..]);
    }
  }

  /** The path of leaf `m` starts with its sibling and goes on as that of its parent. */
  ghost predicate PathSteps(H: HashFunction, m: nat, leaves: seq<Digest>)
    requires m < |leaves|
  {
    AuditPath(H, m, leaves) == SiblingPart(m, leaves) + AuditPath(H, m / 2, NextLevel(H, leaves))
  }

  lemma {:induction false} EveryPathSteps(H: HashFunction, m: nat, leaves: seq<Digest>)
    requires m < |leaves|
    ensures PathSteps(H, m, leaves)
    decreases |leaves|
  {
    if |leaves| <= 2 {
    } else {
      var k := SplitPoint(|leaves|);
      if m < k {
        EveryPathSteps(H, m, leaves[..k]);
        PathInLowHalf(H, m, leaves);
      } else {
        EveryPathSteps(H, m - k, leaves[k..]);
        PathInHighHalf(H, m, leaves);
      }
    }
  }

  /** An audit path is the sibling on the lowest level, unless the node is
      promoted, followed by the audit path of its parent one level up. */
  lemma {:induction false} PathOfNextLevel(H: HashFunction, m: nat, leaves: seq<Digest>)
    requires m < |leaves|
    ensures AuditPath(H, m, leaves) == SiblingPart(m, leaves) + AuditPath(H, m / 2, NextLevel(H, leaves))
  {
    EveryPathSteps(H, m, leaves);
  }

  lemma {:induction false} PathInLowHalf(H: HashFunction, m: nat, leaves: seq<Digest>)
    requires |leaves| > 2 && m < SplitPoint(|leaves|)
    requires PathSteps(H, m, leaves[..SplitPoint(|leaves|)])
    ensures PathSteps(H, m, leaves)
  {
    var k := SplitPoint(|leaves|);
    SplitHalves(|leaves|);
    ParentPathInLowHalf(H, m, leaves);
    AppendAssociates(SiblingPart(m, leaves), AuditPath(H, m / 2, NextLevel(H, leaves[..k])),
                     [TreeHash(H, leaves[k..])]);
  }

  lemma {:induction false} ParentPathInLowHalf(H: HashFunction, m: nat, leaves: seq<Digest>)
    requires |leaves| > 2 && m < SplitPoint(|leaves|)
    ensures var k := SplitPoint(|leaves|);
            AuditPath(H, m / 2, NextLevel(H, leaves))
            == AuditPath(H, m / 2, NextLevel(H, leaves[..k])) + [TreeHash(H, leaves[k..])]
  {
    var k := SplitPoint(|leaves|);
    LevelSplits(H, leaves);
    RootOfNextLevel(H, leaves[k..]);
  }

  lemma {:induction false} PathInHighHalf(H: HashFunction, m: nat, leaves: seq<Digest>)
    requires |leaves| > 2 && SplitPoint(|leaves|) <= m < |leaves|
    requires PathSteps(H, m - SplitPoint(|leaves|), leaves[SplitPoint(|leaves|)..])
    ensures PathSteps(H, m, leaves)
  {
    var k := SplitPoint(|leaves|);
    var below := AuditPath(H, (m - k) / 2, NextLevel(H, leaves[k..]));
    SiblingInHighHalf(m, leaves);
    ParentOfHighHalf(H, m, leaves);
    AppendAssociates(SiblingPart(m, leaves), below, [TreeHash(H, leaves[..k])]);
  }

  lemma {:induction false} SiblingInHighHalf(m: nat, leaves: seq<Digest>)
    requires |leaves| > 2 && SplitPoint(|leaves|) <= m < |leaves|
    ensures SiblingPart(m - SplitPoint(|leaves|), leaves[SplitPoint(|leaves|)..]) == SiblingPart(m, leaves)
  {
    SplitHalves(|leaves|);
    SiblingInSuffix(m, leaves, SplitPoint(|leaves|) / 2);
  }

  lemma {:induction false} ParentOfHighHalf(H: HashFunction, m: nat, leaves: seq<Digest>)
    requires |leaves| > 2 && SplitPoint(|leaves|) <= m < |leaves|
    ensures var k := SplitPoint(|leaves|);
            AuditPath(H, m / 2, NextLevel(H, leaves))
            == AuditPath(H, (m - k) / 2, NextLevel(H, leaves[k..])) + [TreeHash(H, leaves[..k])]
  {
    SplitHalves(|leaves|);
    HalfOfRest(m, SplitPoint(|leaves|));
    ParentPathInHighHalf(H, m / 2, leaves);
  }

  lemma PathOfUpper(H: HashFunction, j: nat, level: seq<Digest>, low: seq<Digest>, high: seq<Digest>)
    requires |level| > 1 && |low| == SplitPoint(|level|) <= j < |level|
    requires level[..|low|] == low && level[|low|..] == high
    ensures AuditPath(H, j, level) == AuditPath(H, j - |low|, high) + [TreeHash(H, low)]
  {
  }

  lemma ParentPathInHighHalf(H: HashFunction, j: nat, leaves: seq<Digest>)
    requires |leaves| > 2 && SplitPoint(|leaves|) / 2 <= j < (|leaves| + 1) / 2
    ensures var k := SplitPoint(|leaves|);
            && k % 2 == 0 && j - k / 2 < |NextLevel(H, leaves[k..])|
            && AuditPath(H, j, NextLevel(H, leaves))
               == AuditPath(H, j - k / 2, NextLevel(H, leaves[k..])) + [TreeHash(H, leaves[..k])]
  {
    var k := SplitPoint(|leaves|);
    LevelSplits(H, leaves);
    PathOfUpper(H, j, NextLevel(H, leaves), NextLevel(H, leaves[..k]), NextLevel(H, leaves[k..]));
    RootOfNextLevel(H, leaves[..k]);
  }

  lemma HalfOfRest(m: nat, k: nat)
    requires k <= m && k % 2 == 0
    ensures (m - k) / 2 == m / 2 - k / 2
  {
  }

  lemma SiblingInSuffix(m: nat, level: seq<Digest>, h: nat)
    requires 2 * h <= m < |level|
    ensures SiblingPart(m - 2 * h, level[2 * h..]) == SiblingPart(m, level)
  {
    var q := m / 2;
    assert m % 2 == 1 ==> m == 2 * q + 1;
    assert (m - 2 * h) % 2 == m % 2;
  }

  lemma AppendAssociates<T>(a: seq<T>, b: seq<T>, c: seq<T>)
    ensures a + b + c == a + (b + c)
  {
  }

  lemma {:induction false} PathOfPair(H: HashFunction, m: nat, leaves: seq<Digest>)
    requires m < |leaves| == 2
    ensures AuditPath(H, m, leaves) == SiblingPart(m, leaves) == [leaves[1 - m]]
    ensures AuditPath(H, m / 2, NextLevel(H, leaves)) == []
  {
  }

  /** The strings hashed on one level are hashed by the recursive tree too. */
  lemma {:induction false} PairIsHashedByTree(H: HashFunction, leaves: seq<Digest>, j: nat, left: Digest, right: Digest)
    requires 2 * j + 1 < |leaves| && leaves[2 * j] == left && leaves[2 * j + 1] == right
    ensures HashedByTree(H, leaves, InnerInput(left, right))
    decreases |leaves|
  {
    if |leaves| <= 2 {
    } else {
      var k := SplitPoint(|leaves|);
      SplitHalves(|leaves|);
      if 2 * j < k {
        PairIsHashedByTree(H, leaves[..k], j, left, right);
      } else {
        PairIsHashedByTree(H, leaves[k..], j - k / 2, left, right);
      }
    }
  }

  /** Everything hashed from the next level up is hashed by the whole tree. */
  lemma {:induction false} HashedByNextLevel(H: HashFunction, leaves: seq<Digest>, x: seq<byte>)
    requires |leaves| > 0 && HashedByTree(H, NextLevel(H, leaves), x)
    ensures HashedByTree(H, leaves, x)
    decreases |leaves|
  {
    if |leaves| <= 2 {
    } else {
      var k := SplitPoint(|leaves|);
      LevelSplits(H, leaves);
      RootOfNextLevel(H, leaves[..k]);
      RootOfNextLevel(H, leaves[k..]);
      if HashedByTree(H, NextLevel(H, leaves[..k]), x) {
        HashedByNextLevel(H, leaves[..k], x);
      } else if HashedByTree(H, NextLevel(H, leaves[k..]), x) {
        HashedByNextLevel(H, leaves[k..], x);
      }
    }
  }

  // ----- what a node of a level covers -----

  function Level(H: HashFunction, leaves: seq<Digest>, s: nat): seq<Digest> {
    if s == 0 then leaves else NextLevel(H, Level(H, leaves, s - 1))
  }

  lemma {:induction false} SplitPointIsPow2(n: nat, s: nat)
    requires Pow2(s) < n <= 2 * Pow2(s)
    ensures SplitPoint(n) == Pow2(s)
  {
    if s == 0 {
    } else {
      SplitPointIsPow2((n + 1) / 2, s - 1);
    }
  }

  /** `width` leaves from `from` on, or fewer at the right edge. */
  function Covered(leaves: seq<Digest>, from: nat, width: nat): (part: seq<Digest>)
    requires from < |leaves| && width > 0
    ensures part != []
  {
    if from + width <= |leaves| then leaves[from..from + width] else leaves[from..]
  }

  /** A full subtree and its right neighbour make the parent node. */
  lemma PairCovers(H: HashFunction, leaves: seq<Digest>, level: seq<Digest>, j: nat, from: nat,
                   w: nat)
    requires w > 0 && from + w < |leaves| && 2 * j + 1 < |level|
    requires level[2 * j] == TreeHash(H, Covered(leaves, from, w))
    requires level[2 * j + 1] == TreeHash(H, Covered(leaves, from + w, w))
    requires SplitPoint(|Covered(leaves, from, 2 * w)|) == w
    ensures NextLevel(H, level)[j] == TreeHash(H, Covered(leaves, from, 2 * w))
  {
    var all := Covered(leaves, from, 2 * w);
    assert all[..w] == Covered(leaves, from, w);
    assert all[w..] == Covered(leaves, from + w, w);
  }

  /** A last node without a neighbour covers what its promoted copy covers. */
  lemma PromotedCovers(H: HashFunction, leaves: seq<Digest>, level: seq<Digest>, j: nat,
                       from: nat, w: nat)
    requires w > 0 && from < |leaves| <= from + w && 2 * j < |level| == 2 * j + 1
    requires level[2 * j] == TreeHash(H, Covered(leaves, from, w))
    ensures NextLevel(H, level)[j] == TreeHash(H, Covered(leaves, from, 2 * w))
  {
    assert Covered(leaves, from, 2 * w) == Covered(leaves, from, w);
  }

  lemma {:induction false} SplitOfCovered(leaves: seq<Digest>, from: nat, s: nat)
    requires from + Pow2(s) < |leaves|
    ensures SplitPoint(|Covered(leaves, from, 2 * Pow2(s))|) == Pow2(s)
  {
    SplitPointIsPow2(|Covered(leaves, from, 2 * Pow2(s))|, s);
  }

  /** The first leaf under node `j` of level `s`: j * 2^s. */
  function FirstLeaf(j: nat, s: nat): nat
    decreases s
  {
    if s == 0 then j else FirstLeaf(2 * j, s - 1)
  }

  lemma {:induction false} FirstLeafOfNext(j: nat, s: nat)
    ensures FirstLeaf(j + 1, s) == FirstLeaf(j, s) + Pow2(s)
    decreases s
  {
    if s == 0 {
    } else {
      FirstLeafOfNext(2 * j, s - 1);
      FirstLeafOfNext(2 * j + 1, s - 1);
    }
  }

  lemma {:induction false} FirstLeafIsShift(j: nat, s: nat)
    ensures FirstLeaf(j, s) == j * Pow2(s)
    decreases s
  {
    if s == 0 {
    } else {
      FirstLeafIsShift(2 * j, s - 1);
    }
  }

  /** Node `j` of level `s` exists exactly when its first leaf does. */
  lemma {:induction false} LevelNodeExists(H: HashFunction, leaves: seq<Digest>, s: nat, j: nat)
    ensures j < |Level(H, leaves, s)| <==> FirstLeaf(j, s) < |leaves|
  {
    if s == 0 {
    } else {
      LevelNodeExists(H, leaves, s - 1, 2 * j);
    }
  }

  /** Is node `j` of level `s` the tree hash of the leaves it covers? */
  ghost predicate CoversLeaves(H: HashFunction, leaves: seq<Digest>, s: nat, j: nat) {
    && FirstLeaf(j, s) < |leaves|
    && j < |Level(H, leaves, s)|
    && Level(H, leaves, s)[j] == TreeHash(H, Covered(leaves, FirstLeaf(j, s), Pow2(s)))
  }

  lemma ParentOfPair(H: HashFunction, leaves: seq<Digest>, s: nat, j: nat)
    requires CoversLeaves(H, leaves, s, 2 * j) && CoversLeaves(H, leaves, s, 2 * j + 1)
    ensures CoversLeaves(H, leaves, s + 1, j)
  {
    var w, from := Pow2(s), FirstLeaf(2 * j, s);
    FirstLeafOfNext(2 * j, s);
    SplitOfCovered(leaves, from, s);
    PairCovers(H, leaves, Level(H, leaves, s), j, from, w);
  }

  lemma {:induction false} ParentOfPromoted(H: HashFunction, leaves: seq<Digest>, s: nat, j: nat)
    requires CoversLeaves(H, leaves, s, 2 * j) && FirstLeaf(2 * j + 1, s) >= |leaves|
    ensures CoversLeaves(H, leaves, s + 1, j)
  {
    var w, from := Pow2(s), FirstLeaf(2 * j, s);
    FirstLeafOfNext(2 * j, s);
    LevelNodeExists(H, leaves, s, 2 * j + 1);
    PromotedCovers(H, leaves, Level(H, leaves, s), j, from, w);
  }

  /** Every node of every level is the tree hash of the 2^s leaves under it, or of
      those that exist at the right edge, promotions included. */
  lemma {:induction false} LevelNodeIsSubtreeHash(H: HashFunction, leaves: seq<Digest>, s: nat, j: nat)
    requires FirstLeaf(j, s) < |leaves|
    ensures CoversLeaves(H, leaves, s, j)
    decreases s
  {
    if s == 0 {
      assert Covered(leaves, j, 1) == [leaves[j]];
    } else {
      LevelNodeIsSubtreeHash(H, leaves, s - 1, 2 * j);
      if FirstLeaf(2 * j + 1, s - 1) < |leaves| {
        LevelNodeIsSubtreeHash(H, leaves, s - 1, 2 * j + 1);
        ParentOfPair(H, leaves, s - 1, j);
      } else {
        ParentOfPromoted(H, leaves, s - 1, j);
      }
    }
  }
}
