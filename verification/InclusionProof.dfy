/** Verification of Merkle inclusion proofs (pkix-ct/src/verify.rs,
    `verify_inclusion_inner`), related to the tree of RFC 6962. */
module InclusionProof {
  import opened Bits
  import opened Bytes
  import opened CtErrors
  import opened MerkleTree
  import opened Outcomes

  datatype MerkleAuditPath = MerkleAuditPath(leafIndex: u64, treeSize: u64, auditPath: seq<Digest>)

  /** A last node without a sibling moves up a level unhashed. */
  predicate Promoted(fn: nat, sn: nat) {
    fn == sn && fn % 2 == 0
  }

  /** The string hashed to step from node `fn` to its parent. */
  function JoinInput(fn: nat, r: Digest, sibling: Digest): seq<byte> {
    if fn % 2 == 1 then InnerInput(sibling, r) else InnerInput(r, sibling)
  }

  /** The root that `path` leads to from node `fn`, hash `r`, on a level whose
      last node is `sn`; None when the path is too long or too short. */
  function Climb(H: HashFunction, fn: nat, sn: nat, r: Digest, path: seq<Digest>): Option<Digest>
    requires fn <= sn
    decreases sn
  {
    if sn == 0 then
      if path == [] then Some(r) else None
    else if Promoted(fn, sn) then
      Climb(H, fn / 2, sn / 2, r, path)
    else if path == [] then
      None
    else
      Climb(H, fn / 2, sn / 2, H(JoinInput(fn, r, path[0])), path[1..])
  }

  /** What verification must answer: malformed for an empty tree or a path of
      the wrong length, invalid for an index outside the tree or a wrong root. */
  function Verdict(H: HashFunction, leafHash: Digest, proof: MerkleAuditPath, expectedRoot: Digest): CtResult<()> {
    if proof.treeSize == 0 then
      Err(MerkleProofMalformed)
    else if proof.leafIndex >= proof.treeSize then
      Err(MerkleProofInvalid)
    else
      match Climb(H, proof.leafIndex, proof.treeSize - 1, leafHash, proof.auditPath)
      case None => Err(MerkleProofMalformed)
      case Some(root) => if root == expectedRoot then Ok(()) else Err(MerkleProofInvalid)
  }

  method VerifyInclusion(H: HashFunction, leafHash: Digest, proof: MerkleAuditPath, expectedRoot: Digest)
    returns (result: CtResult<()>)
    ensures result == Verdict(H, leafHash, proof, expectedRoot)
  {
    if proof.treeSize == 0 {
      return Err(MerkleProofMalformed);
    }
    if proof.leafIndex >= proof.treeSize {
      return Err(MerkleProofInvalid);
    }
    var maxPathLen := 0;
    if proof.treeSize > 1 {
      maxPathLen := 64 - LeadingZeros64(proof.treeSize - 1);
    }
    if |proof.auditPath| > maxPathLen {
      ClimbChecksLength(H, proof.leafIndex, proof.treeSize - 1, leafHash, proof.auditPath);
      PathLengthBound(proof.leafIndex, proof.treeSize - 1);
      return Err(MerkleProofMalformed);
    }

    var fn: u64 := proof.leafIndex;
    var sn: u64 := proof.treeSize - 1;
    var r := leafHash;
    ghost var answer := Climb(H, fn, sn, r, proof.auditPath);
    for i := 0 to |proof.auditPath|
      invariant fn <= sn
      invariant Climb(H, fn, sn, r, proof.auditPath[i..]) == answer
    {
      var p := proof.auditPath[i];
      if sn == 0 {
        return Err(MerkleProofMalformed);
      }
      ghost var before := r;
      ghost var rest := proof.auditPath[i..];
      if fn % 2 == 1 || fn == sn {
        r := InnerHash(H, p, r);
        while fn % 2 == 0 && fn != 0
          invariant 0 < fn <= sn
          invariant fn % 2 == 1 || fn == sn
          invariant Climb(H, fn, sn, before, rest) == answer
        {
          fn := fn / 2;
          sn := sn / 2;
        }
      } else {
        r := InnerHash(H, r, p);
      }
      assert rest[0] == p && rest[1..] == proof.auditPath[i + 1..];
      fn := fn / 2;
      sn := sn / 2;
    }
    if sn != 0 {
      ClimbNeedsSibling(H, fn, sn, r);
      return Err(MerkleProofMalformed);
    }
    if r != expectedRoot {
      return Err(MerkleProofInvalid);
    }
    return Ok(());
  }

  /** With the path used up, only the root level has an answer. */
  lemma {:induction false} ClimbNeedsSibling(H: HashFunction, fn: nat, sn: nat, r: Digest)
    requires 0 < sn && fn <= sn
    ensures Climb(H, fn, sn, r, []) == None
    decreases sn
  {
    if !Promoted(fn, sn) {
    } else {
      ClimbNeedsSibling(H, fn / 2, sn / 2, r);
    }
  }

  // ----- completeness -----

  function StepUp(H: HashFunction, fn: nat, r: Digest, sibling: seq<Digest>): Digest {
    if sibling == [] then r else H(JoinInput(fn, r, sibling[0]))
  }

  lemma ParentByStepUp(H: HashFunction, m: nat, leaves: seq<Digest>)
    requires m < |leaves| && |leaves| > 1
    ensures |SiblingPart(m, leaves)| == if Promoted(m, |leaves| - 1) then 0 else 1
    ensures NextLevel(H, leaves)[m / 2] == StepUp(H, m, leaves[m], SiblingPart(m, leaves))
  {
  }

  /** One step up: past a promotion, or with the first sibling. */
  lemma {:induction false} ClimbStep(H: HashFunction, fn: nat, sn: nat, r: Digest, sibling: seq<Digest>,
                                     above: seq<Digest>)
    requires fn <= sn && sn > 0
    requires |sibling| == if Promoted(fn, sn) then 0 else 1
    ensures Climb(H, fn, sn, r, sibling + above) == Climb(H, fn / 2, sn / 2, StepUp(H, fn, r, sibling), above)
  {
    if sibling == [] {
      assert sibling + above == above;
    } else {
      assert (sibling + above)[1..] == above;
    }
  }

  lemma {:induction false} ClimbFromParent(H: HashFunction, m: nat, leaves: seq<Digest>, next: seq<Digest>,
                                           root: Digest)
    requires m < |leaves| && |leaves| > 1 && next == NextLevel(H, leaves)
    requires Climb(H, m / 2, |next| - 1, next[m / 2], AuditPath(H, m / 2, next)) == Some(root)
    ensures Climb(H, m, |leaves| - 1, leaves[m], AuditPath(H, m, leaves)) == Some(root)
  {
    ParentByStepUp(H, m, leaves);
    ClimbStep(H, m, |leaves| - 1, leaves[m], SiblingPart(m, leaves), AuditPath(H, m / 2, next));
    PathOfNextLevel(H, m, leaves);
  }

  /** The path RFC 6962 defines leads from every leaf to the tree hash. */
  lemma {:induction false} ClimbAuditPath(H: HashFunction, m: nat, leaves: seq<Digest>)
    requires m < |leaves|
    ensures Climb(H, m, |leaves| - 1, leaves[m], AuditPath(H, m, leaves)) == Some(TreeHash(H, leaves))
    decreases |leaves|
  {
    if |leaves| <= 1 {
    } else {
      var next := NextLevel(H, leaves);
      ClimbAuditPath(H, m / 2, next);
      ClimbFromParent(H, m, leaves, next, TreeHash(H, next));
      RootOfNextLevel(H, leaves);
    }
  }

  // ----- the range invariant of the loop -----

  lemma {:induction false} ShiftOneMore(x: nat, s: nat)
    ensures ShiftRight(x, s + 1) == ShiftRight(x, s) / 2
  {
    if s == 0 {
    } else {
      ShiftOneMore(x / 2, s - 1);
    }
  }

  lemma {:induction false} ShiftMonotone(x: nat, y: nat, s: nat)
    requires x <= y
    ensures ShiftRight(x, s) <= ShiftRight(y, s)
  {
    if s == 0 {
    } else {
      ShiftMonotone(x / 2, y / 2, s - 1);
    }
  }

  /** The last index of level `s` is the last index of the tree shifted by `s`. */
  lemma {:induction false} LastOfLevel(H: HashFunction, leaves: seq<Digest>, s: nat)
    requires leaves != []
    ensures |Level(H, leaves, s)| - 1 == ShiftRight(|leaves| - 1, s)
  {
    if s == 0 {
    } else {
      LastOfLevel(H, leaves, s - 1);
      ShiftOneMore(|leaves| - 1, s - 1);
    }
  }

  lemma {:induction false} ShiftInLevel(H: HashFunction, m: nat, leaves: seq<Digest>, s: nat)
    requires m < |leaves|
    ensures ShiftRight(m, s) < |Level(H, leaves, s)|
  {
    LastOfLevel(H, leaves, s);
    ShiftMonotone(m, |leaves| - 1, s);
  }

  /** Climbing from node `j` of a level. */
  function ClimbFrom(H: HashFunction, level: seq<Digest>, j: nat, path: seq<Digest>): Option<Digest>
    requires j < |level|
  {
    Climb(H, j, |level| - 1, level[j], path)
  }

  lemma ClimbOneLevel(H: HashFunction, level: seq<Digest>, j: nat, rest: seq<Digest>)
    requires j < |level|
    ensures ClimbFrom(H, level, j, SiblingPart(j, level) + rest) == ClimbFrom(H, NextLevel(H, level), j / 2, rest)
  {
    if |level| == 1 {
      assert SiblingPart(j, level) + rest == rest;
    } else {
      ParentByStepUp(H, j, level);
      ClimbStep(H, j, |level| - 1, level[j], SiblingPart(j, level), rest);
    }
  }

  /** The ancestor of leaf `m` on level `t`: its sibling there, and climbing from it. */
  function SiblingAt(H: HashFunction, m: nat, leaves: seq<Digest>, t: nat): seq<Digest>
    requires m < |leaves|
  {
    ShiftInLevel(H, m, leaves, t);
    SiblingPart(ShiftRight(m, t), Level(H, leaves, t))
  }

  function ClimbFromLevel(H: HashFunction, m: nat, leaves: seq<Digest>, t: nat, path: seq<Digest>): Option<Digest>
    requires m < |leaves|
  {
    ShiftInLevel(H, m, leaves, t);
    ClimbFrom(H, Level(H, leaves, t), ShiftRight(m, t), path)
  }

  lemma ClimbLevelByLevel(H: HashFunction, m: nat, leaves: seq<Digest>, t: nat, rest: seq<Digest>)
    requires m < |leaves|
    ensures ClimbFromLevel(H, m, leaves, t, SiblingAt(H, m, leaves, t) + rest)
            == ClimbFromLevel(H, m, leaves, t + 1, rest)
  {
    ShiftInLevel(H, m, leaves, t);
    ShiftOneMore(m, t);
    ClimbOneLevel(H, Level(H, leaves, t), ShiftRight(m, t), rest);
  }

  /** The siblings met on the lowest `s` levels. */
  function Gathered(parts: nat -> seq<Digest>, s: nat): seq<Digest> {
    if s == 0 then [] else Gathered(parts, s - 1) + parts(s - 1)
  }

  function PathUpTo(H: HashFunction, m: nat, leaves: seq<Digest>, s: nat): seq<Digest>
    requires m < |leaves|
  {
    Gathered((t: nat) => SiblingAt(H, m, leaves, t), s)
  }

  /** Steps that each use up their own part use up all the parts together. */
  lemma {:induction false} StepsTogether(parts: nat -> seq<Digest>, answer: (nat, seq<Digest>) -> Option<Digest>,
                                         s: nat, rest: seq<Digest>)
    requires forall t: nat, path: seq<Digest> :: answer(t, parts(t) + path) == answer(t + 1, path)
    ensures answer(0, Gathered(parts, s) + rest) == answer(s, rest)
  {
    if s == 0 {
      assert Gathered(parts, s) + rest == rest;
    } else {
      StepsTogether(parts, answer, s - 1, parts(s - 1) + rest);
      AppendAssociates(Gathered(parts, s - 1), parts(s - 1), rest);
    }
  }

  /** Climbing `s` levels from a leaf with its genuine siblings leads to its ancestor on
      level `s`. */
  lemma ClimbToLevel(H: HashFunction, m: nat, leaves: seq<Digest>, s: nat, rest: seq<Digest>)
    requires m < |leaves|
    ensures ClimbFromLevel(H, m, leaves, 0, PathUpTo(H, m, leaves, s) + rest) == ClimbFromLevel(H, m, leaves, s, rest)
  {
    var parts := (t: nat) => SiblingAt(H, m, leaves, t);
    var answer := (t: nat, path: seq<Digest>) => ClimbFromLevel(H, m, leaves, t, path);
    forall t: nat, path: seq<Digest> ensures answer(t, parts(t) + path) == answer(t + 1, path) {
      ClimbLevelByLevel(H, m, leaves, t, path);
    }
    StepsTogether(parts, answer, s, rest);
  }

  function AuditFromLevel(H: HashFunction, m: nat, leaves: seq<Digest>, t: nat): seq<Digest>
    requires m < |leaves|
  {
    ShiftInLevel(H, m, leaves, t);
    AuditPath(H, ShiftRight(m, t), Level(H, leaves, t))
  }

  lemma AuditLevelByLevel(H: HashFunction, m: nat, leaves: seq<Digest>, t: nat)
    requires m < |leaves|
    ensures AuditFromLevel(H, m, leaves, t) == SiblingAt(H, m, leaves, t) + AuditFromLevel(H, m, leaves, t + 1)
  {
    ShiftInLevel(H, m, leaves, t);
    ShiftOneMore(m, t);
    PathOfNextLevel(H, ShiftRight(m, t), Level(H, leaves, t));
  }

  lemma {:induction false} PartsTogether(parts: nat -> seq<Digest>, tail: nat -> seq<Digest>, s: nat)
    requires forall t: nat :: tail(t) == parts(t) + tail(t + 1)
    ensures tail(0) == Gathered(parts, s) + tail(s)
  {
    if s == 0 {
      assert [] + tail(0) == tail(0);
    } else {
      PartsTogether(parts, tail, s - 1);
      AppendAssociates(Gathered(parts, s - 1), parts(s - 1), tail(s));
    }
  }

  /** The siblings of the lowest levels are the beginning of the audit path. */
  lemma {:induction false} PathBeginsBelow(H: HashFunction, m: nat, leaves: seq<Digest>, s: nat)
    requires m < |leaves|
    ensures PathUpTo(H, m, leaves, s) <= AuditPath(H, m, leaves)
  {
    var parts := (t: nat) => SiblingAt(H, m, leaves, t);
    var tail := (t: nat) => AuditFromLevel(H, m, leaves, t);
    forall t: nat ensures tail(t) == parts(t) + tail(t + 1) {
      AuditLevelByLevel(H, m, leaves, t);
    }
    PartsTogether(parts, tail, s);
    assert tail(0) == AuditPath(H, m, leaves);
  }

  lemma {:induction false} ClimbAt(H: HashFunction, level: seq<Digest>, j: nat, last: nat, r: Digest, path: seq<Digest>)
    requires j <= last && |level| == last + 1 && level[j] == r
    ensures ClimbFrom(H, level, j, path) == Climb(H, j, last, r, path)
  {
  }

  /** What the verifying loop keeps on a genuine proof: after a total shift of `s`, the
      counters are the leaf's index and the last index shifted by `s`, the rest of the
      path is still to come, and the hash so far is the tree hash of the leaves
      j * 2^s .. min((j + 1) * 2^s, n), through every promotion of an unpaired node. */
  lemma {:induction false} LoopInvariant(H: HashFunction, m: nat, leaves: seq<Digest>, s: nat, rest: seq<Digest>)
    requires m < |leaves|
    ensures var j, last := ShiftRight(m, s), ShiftRight(|leaves| - 1, s);
            && PathUpTo(H, m, leaves, s) <= AuditPath(H, m, leaves)
            && j <= last && j * Pow2(s) < |leaves|
            && Climb(H, m, |leaves| - 1, leaves[m], PathUpTo(H, m, leaves, s) + rest)
               == Climb(H, j, last, TreeHash(H, Covered(leaves, j * Pow2(s), Pow2(s))), rest)
  {
    var level, j := Level(H, leaves, s), ShiftRight(m, s);
    PathBeginsBelow(H, m, leaves, s);
    ShiftInLevel(H, m, leaves, s);
    NodeOfLevel(H, leaves, s, level, j);
    ClimbToLevel(H, m, leaves, s, rest);
    ClimbAt(H, leaves, m, |leaves| - 1, leaves[m], PathUpTo(H, m, leaves, s) + rest);
    ClimbAt(H, level, j, ShiftRight(|leaves| - 1, s), level[j], rest);
  }

  /** A node of a level, in the terms of the leaves. */
  lemma {:induction false} NodeOfLevel(H: HashFunction, leaves: seq<Digest>, s: nat, level: seq<Digest>, j: nat)
    requires leaves != [] && level == Level(H, leaves, s) && j < |level|
    ensures |level| - 1 == ShiftRight(|leaves| - 1, s)
    ensures j * Pow2(s) < |leaves| && level[j] == TreeHash(H, Covered(leaves, j * Pow2(s), Pow2(s)))
  {
    LastOfLevel(H, leaves, s);
    LevelNodeExists(H, leaves, s, j);
    LevelNodeIsSubtreeHash(H, leaves, s, j);
    FirstLeafIsShift(j, s);
  }

  // ----- soundness -----

  ghost predicate IsCollision(H: HashFunction, x: seq<byte>, y: seq<byte>) {
    x != y && H(x) == H(y)
  }

  /** Is `x` hashed on the way up? */
  predicate HashedByClimb(H: HashFunction, fn: nat, sn: nat, r: Digest, path: seq<Digest>, x: seq<byte>)
    requires fn <= sn
    decreases sn
  {
    if sn == 0 then
      false
    else if Promoted(fn, sn) then
      HashedByClimb(H, fn / 2, sn / 2, r, path, x)
    else
      path != [] &&
      var step := JoinInput(fn, r, path[0]);
      x == step || HashedByClimb(H, fn / 2, sn / 2, H(step), path[1..], x)
  }

  /** Do the strings that the verifier and the log hash on this level collide? */
  predicate CollisionHere(H: HashFunction, m: nat, leaves: seq<Digest>, r: Digest, path: seq<Digest>)
    requires m < |leaves| && |leaves| > 1 && !Promoted(m, |leaves| - 1) && path != []
  {
    var x, y := JoinInput(m, r, path[0]), JoinInput(m, leaves[m], SiblingPart(m, leaves)[0]);
    x != y && H(x) == H(y)
  }

  /** The lowest level where the string hashed by the verifier and the string
      hashed by the log differ but have the same hash. */
  function FindCollision(H: HashFunction, m: nat, leaves: seq<Digest>, r: Digest, path: seq<Digest>)
    : (pair: (seq<byte>, seq<byte>))
    requires m < |leaves|
    decreases |leaves|
  {
    var next := NextLevel(H, leaves);
    if |leaves| == 1 then
      ([], [])
    else if Promoted(m, |leaves| - 1) then
      FindCollision(H, m / 2, next, r, path)
    else if path == [] then
      ([], [])
    else
      var x := JoinInput(m, r, path[0]);
      if CollisionHere(H, m, leaves, r, path) then
        (x, JoinInput(m, leaves[m], SiblingPart(m, leaves)[0]))
      else
        FindCollision(H, m / 2, next, H(x), path[1..])
  }

  /** The pair found is a collision between something the verifier hashed and
      something the log hashed. */
  ghost predicate CollisionFound(H: HashFunction, m: nat, leaves: seq<Digest>, r: Digest, path: seq<Digest>)
    requires m < |leaves|
  {
    var pair := FindCollision(H, m, leaves, r, path);
    && IsCollision(H, pair.0, pair.1)
    && HashedByClimb(H, m, |leaves| - 1, r, path, pair.0)
    && HashedByTree(H, leaves, pair.1)
  }

  /** The leaf and the path are those of the tree itself. */
  predicate Genuine(H: HashFunction, m: nat, leaves: seq<Digest>, r: Digest, path: seq<Digest>)
    requires m < |leaves|
  {
    r == leaves[m] && path == AuditPath(H, m, leaves)
  }

  /** A path that leads to the tree hash is the path of RFC 6962 from the leaf at
      that index, or the verifier and the log have hashed two different strings
      to the same digest and FindCollision names them. */
  lemma {:induction false} ClimbSound(H: HashFunction, m: nat, leaves: seq<Digest>, r: Digest, path: seq<Digest>)
    requires m < |leaves|
    requires Climb(H, m, |leaves| - 1, r, path) == Some(TreeHash(H, leaves))
    ensures Genuine(H, m, leaves, r, path) || CollisionFound(H, m, leaves, r, path)
    decreases |leaves|
  {
    if |leaves| <= 1 {
    } else {
      RootOfNextLevel(H, leaves);
      if Promoted(m, |leaves| - 1) {
        ClimbSound(H, m / 2, NextLevel(H, leaves), r, path);
        if Genuine(H, m / 2, NextLevel(H, leaves), r, path) {
          GenuineFromPromoted(H, m, leaves, r, path);
        } else {
          CollisionFromPromoted(H, m, leaves, r, path);
        }
      } else {
        var r' := H(JoinInput(m, r, path[0]));
        ClimbSound(H, m / 2, NextLevel(H, leaves), r', path[1..]);
        if CollisionHere(H, m, leaves, r, path) {
          CollisionFromHere(H, m, leaves, r, path);
        } else if Genuine(H, m / 2, NextLevel(H, leaves), r', path[1..]) {
          GenuineFromParent(H, m, leaves, r, path);
        } else {
          CollisionFromParent(H, m, leaves, r, path);
        }
      }
    }
  }

  lemma GenuineFromPromoted(H: HashFunction, m: nat, leaves: seq<Digest>, r: Digest,
                            path: seq<Digest>)
    requires m < |leaves| && |leaves| > 1 && Promoted(m, |leaves| - 1)
    requires Genuine(H, m / 2, NextLevel(H, leaves), r, path)
    ensures Genuine(H, m, leaves, r, path)
  {
    PathOfNextLevel(H, m, leaves);
    assert SiblingPart(m, leaves) + path == path;
  }

  lemma CollisionFromPromoted(H: HashFunction, m: nat, leaves: seq<Digest>, r: Digest,
                              path: seq<Digest>)
    requires m < |leaves| && |leaves| > 1 && Promoted(m, |leaves| - 1)
    requires CollisionFound(H, m / 2, NextLevel(H, leaves), r, path)
    ensures CollisionFound(H, m, leaves, r, path)
  {
    var pair := FindCollision(H, m / 2, NextLevel(H, leaves), r, path);
    assert FindCollision(H, m, leaves, r, path) == pair;
    HashedByNextLevel(H, leaves, pair.1);
  }

  lemma CollisionFromHere(H: HashFunction, m: nat, leaves: seq<Digest>, r: Digest, path: seq<Digest>)
    requires m < |leaves| && |leaves| > 1 && !Promoted(m, |leaves| - 1) && path != []
    requires CollisionHere(H, m, leaves, r, path)
    ensures CollisionFound(H, m, leaves, r, path)
  {
    PairIsHashedByTree(H, leaves, m / 2, leaves[m / 2 * 2], leaves[m / 2 * 2 + 1]);
  }

  lemma CollisionFromParent(H: HashFunction, m: nat, leaves: seq<Digest>, r: Digest,
                            path: seq<Digest>)
    requires m < |leaves| && |leaves| > 1 && !Promoted(m, |leaves| - 1) && path != []
    requires !CollisionHere(H, m, leaves, r, path)
    requires CollisionFound(H, m / 2, NextLevel(H, leaves), H(JoinInput(m, r, path[0])), path[1..])
    ensures CollisionFound(H, m, leaves, r, path)
  {
    var pair := FindCollision(H, m / 2, NextLevel(H, leaves), H(JoinInput(m, r, path[0])), path[1..]);
    assert FindCollision(H, m, leaves, r, path) == pair;
    HashedByNextLevel(H, leaves, pair.1);
  }

  lemma GenuineFromParent(H: HashFunction, m: nat, leaves: seq<Digest>, r: Digest, path: seq<Digest>)
    requires m < |leaves| && |leaves| > 1 && !Promoted(m, |leaves| - 1) && path != []
    requires !CollisionHere(H, m, leaves, r, path)
    requires Genuine(H, m / 2, NextLevel(H, leaves), H(JoinInput(m, r, path[0])), path[1..])
    ensures Genuine(H, m, leaves, r, path)
  {
    JoinInputInjective(m, r, path[0], leaves[m], SiblingPart(m, leaves)[0]);
    PathOfNextLevel(H, m, leaves);
    assert path == SiblingPart(m, leaves) + path[1..];
  }

  lemma JoinInputInjective(fn: nat, r: Digest, p: Digest, r': Digest, p': Digest)
    requires JoinInput(fn, r, p) == JoinInput(fn, r', p')
    ensures r == r' && p == p'
  {
    var x, y := JoinInput(fn, r, p), JoinInput(fn, r', p');
    assert x[1..33] == if fn % 2 == 1 then p else r;
    assert y[1..33] == if fn % 2 == 1 then p' else r';
    assert x[33..] == if fn % 2 == 1 then r else p;
    assert y[33..] == if fn % 2 == 1 then r' else p';
  }

  // ----- shape -----

  /** How many siblings node `fn` meets on its way up. */
  function PathLength(fn: nat, sn: nat): nat
    requires fn <= sn
    decreases sn
  {
    if sn == 0 then 0
    else (if Promoted(fn, sn) then 0 else 1) + PathLength(fn / 2, sn / 2)
  }

  /** Climbing has an answer exactly when the path has the expected length. */
  lemma {:induction false} ClimbChecksLength(H: HashFunction, fn: nat, sn: nat, r: Digest, path: seq<Digest>)
    requires fn <= sn
    ensures Climb(H, fn, sn, r, path).Some? <==> |path| == PathLength(fn, sn)
    decreases sn
  {
    if sn == 0 {
    } else {
      if Promoted(fn, sn) {
        ClimbChecksLength(H, fn / 2, sn / 2, r, path);
      } else if path != [] {
        ClimbChecksLength(H, fn / 2, sn / 2, H(JoinInput(fn, r, path[0])), path[1..]);
      }
    }
  }

  lemma {:induction false} PathLengthBound(fn: nat, sn: nat)
    requires fn <= sn
    ensures PathLength(fn, sn) <= BitLength(sn)
    decreases sn
  {
    if sn == 0 {
    } else {
      PathLengthBound(fn / 2, sn / 2);
    }
  }

  /** Below the highest bit where index and last index differ every level has a
      sibling; above it only the levels where the index is odd. */
  lemma {:induction false} PathLengthInBits(fn: nat, sn: nat)
    requires fn <= sn
    ensures var b := BitLength(Xor(fn, sn));
            PathLength(fn, sn) == b + PopCount(ShiftRight(fn, b))
    decreases sn
  {
    if fn == sn {
      XorSame(fn);
    }
    if sn == 0 {
    } else {
      PathLengthInBits(fn / 2, sn / 2);
      if fn == sn {
        XorSame(fn / 2);
      } else {
        XorDiffers(fn, sn);
        assert Xor(fn, sn) / 2 == Xor(fn / 2, sn / 2);
      }
    }
  }

  lemma {:induction false} XorSame(x: nat)
    ensures Xor(x, x) == 0
  {
    if x == 0 {
    } else {
      XorSame(x / 2);
    }
  }

  lemma {:induction false} XorDiffers(x: nat, y: nat)
    requires x != y
    ensures Xor(x, y) > 0
    decreases x + y
  {
    if x % 2 != y % 2 {
    } else {
      XorDiffers(x / 2, y / 2);
    }
  }
}
