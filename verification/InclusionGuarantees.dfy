/** What the answer of inclusion-proof verification means for a log. */
module InclusionGuarantees {
  import opened Bits
  import opened Bytes
  import opened CtEncoding
  import opened CtErrors
  import opened InclusionProof
  import opened MerkleTree
  import opened Outcomes

  /** Completeness: the proof RFC 6962 defines for any entry of any log is accepted. */
  lemma {:induction false} GenuineProofAccepted(H: HashFunction, entries: seq<seq<byte>>, i: nat)
    requires i < |entries| <= 0xFFFF_FFFF_FFFF_FFFF
    ensures var leaves := LeafHashes(H, entries);
            Verdict(H, LeafHash(H, entries[i]),
                    MerkleAuditPath(i, |entries|, AuditPath(H, i, leaves)), TreeHash(H, leaves)) == Ok(())
  {
    var leaves := LeafHashes(H, entries);
    ClimbAuditPath(H, i, leaves);
  }

  /** Soundness: a proof accepted against the tree hash of a log of the claimed
      size is for the leaf at the claimed index and is the genuine path; otherwise
      the verifier and the log have hashed a collision, which FindCollision names. */
  lemma {:induction false} AcceptedProofIsGenuine(H: HashFunction, leaves: seq<Digest>, leafHash: Digest,
                                                  proof: MerkleAuditPath)
    requires |leaves| > 0 && proof.treeSize == |leaves|
    requires Verdict(H, leafHash, proof, TreeHash(H, leaves)) == Ok(())
    ensures proof.leafIndex < |leaves|
    ensures || Genuine(H, proof.leafIndex, leaves, leafHash, proof.auditPath)
            || CollisionFound(H, proof.leafIndex, leaves, leafHash, proof.auditPath)
  {
    ClimbSound(H, proof.leafIndex, leaves, leafHash, proof.auditPath);
  }

  /** The length of the audit path of leaf `i` among `n`, read off the bits of `i`
      and `n - 1`. */
  function ExpectedLength(i: nat, n: nat): nat
    requires i < n
  {
    var b := BitLength(Xor(i, n - 1));
    b + PopCount(ShiftRight(i, b))
  }

  /** Shape: inside the tree, "malformed" means exactly "wrong path length", and
      the expected length is that of the genuine path and at most ceil(log2 n). */
  lemma MalformedIsWrongLength(H: HashFunction, leafHash: Digest, proof: MerkleAuditPath,
                               root: Digest)
    requires proof.leafIndex < proof.treeSize
    ensures Verdict(H, leafHash, proof, root) == Err(MerkleProofMalformed)
            <==> |proof.auditPath| != ExpectedLength(proof.leafIndex, proof.treeSize)
    ensures ExpectedLength(proof.leafIndex, proof.treeSize) <= BitLength(proof.treeSize - 1)
    ensures proof.treeSize > 1 ==>
              Pow2(BitLength(proof.treeSize - 1) - 1) < proof.treeSize <= Pow2(BitLength(proof.treeSize - 1))
  {
    var i, sn := proof.leafIndex, proof.treeSize - 1;
    ClimbChecksLength(H, i, sn, leafHash, proof.auditPath);
    PathLengthInBits(i, sn);
    PathLengthBound(i, sn);
    if sn > 0 {
      BitLengthBounds(sn);
    }
  }

  lemma {:induction false} GenuinePathLength(H: HashFunction, i: nat, leaves: seq<Digest>)
    requires i < |leaves|
    ensures |AuditPath(H, i, leaves)| == ExpectedLength(i, |leaves|)
  {
    ClimbAuditPath(H, i, leaves);
    LengthOfClimb(H, i, |leaves|, leaves[i], AuditPath(H, i, leaves));
  }

  lemma LengthOfClimb(H: HashFunction, i: nat, n: nat, r: Digest, path: seq<Digest>)
    requires i < n && Climb(H, i, n - 1, r, path).Some?
    ensures |path| == ExpectedLength(i, n)
  {
    ClimbChecksLength(H, i, n - 1, r, path);
    PathLengthInBits(i, n - 1);
  }

  /** The outcomes, for every proof and root. */
  lemma OutcomeTable(H: HashFunction, leafHash: Digest, proof: MerkleAuditPath, root: Digest)
    ensures var i, n, verdict := proof.leafIndex, proof.treeSize, Verdict(H, leafHash, proof, root);
            && (n == 0 ==> verdict == Err(MerkleProofMalformed))
            && (0 < n <= i ==> verdict == Err(MerkleProofInvalid))
            && (i < n && |proof.auditPath| != ExpectedLength(i, n) ==> verdict == Err(MerkleProofMalformed))
            && (i < n && |proof.auditPath| == ExpectedLength(i, n) ==>
                  verdict == Ok(()) || verdict == Err(MerkleProofInvalid))
  {
    if proof.leafIndex < proof.treeSize {
      MalformedIsWrongLength(H, leafHash, proof, root);
    }
  }

  /** A tree of two leaves, in octets: the root is the hash of 0x01, the left leaf and the
      right leaf. */
  lemma TwoLeaves(H: HashFunction, leafHash: Digest, sibling: Digest, root: Digest)
    ensures Verdict(H, leafHash, MerkleAuditPath(0, 2, [sibling]), root)
            == if root == H([0x01] + leafHash + sibling) then Ok(()) else Err(MerkleProofInvalid)
    ensures Verdict(H, leafHash, MerkleAuditPath(1, 2, [sibling]), root)
            == if root == H([0x01] + sibling + leafHash) then Ok(()) else Err(MerkleProofInvalid)
  {
  }

  /** The last of three leaves is promoted past the lowest level. */
  lemma ThirdLeaf(H: HashFunction, leafHash: Digest, sibling: Digest, root: Digest)
    ensures Verdict(H, leafHash, MerkleAuditPath(2, 3, [sibling]), root)
            == if root == H([0x01] + sibling + leafHash) then Ok(()) else Err(MerkleProofInvalid)
  {
    assert Promoted(2, 2);
    TwoLeaves(H, leafHash, sibling, root);
  }

  /** What the verifier hashes on the way up is never what is hashed for an entry. */
  lemma {:induction false} ClimbHashesNoEntry(H: HashFunction, fn: nat, sn: nat, r: Digest, path: seq<Digest>,
                                              x: seq<byte>, entry: seq<byte>)
    requires fn <= sn && HashedByClimb(H, fn, sn, r, path, x)
    ensures |x| == 65 && x[0] == 0x01 && x != [0x00] + entry
    decreases sn
  {
    if Promoted(fn, sn) {
      ClimbHashesNoEntry(H, fn / 2, sn / 2, r, path, x, entry);
    } else {
      var step := JoinInput(fn, r, path[0]);
      if x != step {
        ClimbHashesNoEntry(H, fn / 2, sn / 2, H(step), path[1..], x, entry);
      }
    }
  }

  // ----- the tree size is not bound by a proof -----

  /** Two tree sizes whose last leaf departs from leaf `fn` at the same bit lead
      along the same steps. */
  lemma {:induction false} SameDepartureSameClimb(H: HashFunction, fn: nat, sn: nat, sn': nat, r: Digest,
                                                  path: seq<Digest>)
    requires fn <= sn && fn <= sn'
    requires BitLength(Xor(fn, sn)) == BitLength(Xor(fn, sn'))
    ensures Climb(H, fn, sn, r, path) == Climb(H, fn, sn', r, path)
    decreases sn
  {
    if fn == sn || fn == sn' {
      XorSame(fn);
      if fn != sn {
        XorDiffers(fn, sn);
      }
      if fn != sn' {
        XorDiffers(fn, sn');
      }
    } else {
      XorDiffers(fn, sn);
      XorDiffers(fn, sn');
      assert Xor(fn, sn) / 2 == Xor(fn / 2, sn / 2) && Xor(fn, sn') / 2 == Xor(fn / 2, sn' / 2);
      if path != [] {
        SameDepartureSameClimb(H, fn / 2, sn / 2, sn' / 2, H(JoinInput(fn, r, path[0])), path[1..]);
      }
    }
  }

  lemma {:induction false} LongerWhenNotLast(fn: nat, sn: nat)
    requires fn < sn
    ensures PathLength(fn, sn) > PathLength(fn, fn)
    decreases sn
  {
    if fn / 2 < sn / 2 {
      LongerWhenNotLast(fn / 2, sn / 2);
    } else {
      assert fn % 2 == 0;
    }
  }

  lemma {:induction false} LaterDepartureIsLonger(fn: nat, sn: nat, sn': nat)
    requires fn <= sn && fn <= sn'
    requires BitLength(Xor(fn, sn)) < BitLength(Xor(fn, sn'))
    ensures PathLength(fn, sn) < PathLength(fn, sn')
    decreases sn
  {
    if fn == sn' {
      XorSame(fn);
    } else if fn == sn {
      LongerWhenNotLast(fn, sn');
    } else {
      XorDiffers(fn, sn);
      XorDiffers(fn, sn');
      assert Xor(fn, sn) / 2 == Xor(fn / 2, sn / 2) && Xor(fn, sn') / 2 == Xor(fn / 2, sn' / 2);
      LaterDepartureIsLonger(fn / 2, sn / 2, sn' / 2);
    }
  }

  /** The documentation of `verify_inclusion` promises that a changed tree size surfaces
      as "invalid".  An accepted proof with another size is in fact
      - malformed for size zero,
      - invalid when the new tree is too small to hold the leaf's index,
      - still accepted when the old and the new last index depart from the leaf's index
        at the same bit,
      - malformed otherwise. */
  lemma {:induction false} ChangedTreeSize(H: HashFunction, leafHash: Digest, proof: MerkleAuditPath, root: Digest,
                                           size: u64)
    requires Verdict(H, leafHash, proof, root) == Ok(())
    ensures var i := proof.leafIndex;
            Verdict(H, leafHash, proof.(treeSize := size), root)
            == if size == 0 then Err(MerkleProofMalformed)
               else if size <= i then Err(MerkleProofInvalid)
               else if BitLength(Xor(i, size - 1)) == BitLength(Xor(i, proof.treeSize - 1)) then Ok(())
               else Err(MerkleProofMalformed)
  {
    var i := proof.leafIndex;
    if i < size {
      var oldLast, newLast := proof.treeSize - 1, size - 1;
      ClimbChecksLength(H, i, oldLast, leafHash, proof.auditPath);
      ClimbChecksLength(H, i, newLast, leafHash, proof.auditPath);
      if BitLength(Xor(i, newLast)) == BitLength(Xor(i, oldLast)) {
        SameDepartureSameClimb(H, i, oldLast, newLast, leafHash, proof.auditPath);
      } else if BitLength(Xor(i, newLast)) < BitLength(Xor(i, oldLast)) {
        LaterDepartureIsLonger(i, newLast, oldLast);
      } else {
        LaterDepartureIsLonger(i, oldLast, newLast);
      }
    }
  }

  /** When the documented outcome does occur: exactly for the sizes, other than zero,
      that leave the leaf's index outside the tree. */
  lemma ChangedSizeIsInvalid(H: HashFunction, leafHash: Digest, proof: MerkleAuditPath, root: Digest, size: u64)
    requires Verdict(H, leafHash, proof, root) == Ok(())
    ensures Verdict(H, leafHash, proof.(treeSize := size), root) == Err(MerkleProofInvalid)
            <==> 0 < size <= proof.leafIndex
  {
    ChangedTreeSize(H, leafHash, proof, root, size);
  }

  /** The smallest such case: what proves leaf 0 of three leaves proves it of four. */
  lemma ThreeLeavesOrFour(H: HashFunction, leafHash: Digest, path: seq<Digest>, root: Digest)
    requires Verdict(H, leafHash, MerkleAuditPath(0, 3, path), root) == Ok(())
    ensures Verdict(H, leafHash, MerkleAuditPath(0, 4, path), root) == Ok(())
  {
    assert Xor(0, 2) == 2 && Xor(0, 3) == 3;
    ChangedTreeSize(H, leafHash, MerkleAuditPath(0, 3, path), root, 4);
  }

  // ----- from certificate to log entry -----

  /** Two strings hashed as leaves, or two hashed as interior nodes, collide. */
  ghost predicate CollisionExhibited(H: HashFunction, entries: seq<seq<byte>>, leaf: seq<byte>, proof: MerkleAuditPath)
    requires proof.leafIndex < |entries|
  {
    var i := proof.leafIndex;
    || IsCollision(H, [0x00] + leaf, [0x00] + entries[i])
    || CollisionFound(H, i, LeafHashes(H, entries), LeafHash(H, leaf), proof.auditPath)
  }

  /** End to end: when the leaf built for a timestamp, an entry and extensions is
      accepted at an index of a log, that log entry is exactly those octets, so it
      carries that timestamp, entry and extensions and no others, and the
      independent reader finds them there; otherwise a collision is exhibited. */
  lemma AcceptedLeafIsLogEntry(H: HashFunction, entries: seq<seq<byte>>, t: u64, e: LogEntry,
                               x: seq<byte>, proof: MerkleAuditPath)
    requires e.Fits() && |x| <= MAX_U16
    requires |entries| > 0 && proof.treeSize == |entries|
    requires Verdict(H, LeafHash(H, MerkleTreeLeaf(t, e, x)), proof, TreeHash(H, LeafHashes(H, entries))) == Ok(())
    ensures proof.leafIndex < |entries|
    ensures
      var entry := entries[proof.leafIndex];
      || CollisionExhibited(H, entries, MerkleTreeLeaf(t, e, x), proof)
      || (&& entry == MerkleTreeLeaf(t, e, x)
          && (forall t': u64, e': LogEntry, x': seq<byte> ::
                e'.Fits() && |x'| <= MAX_U16 && entry == MerkleTreeLeaf(t', e', x') ==>
                t' == t && e' == e && x' == x)
          && DecodeMerkleTreeLeaf(entry)
             == Some(if e.X509Entry? then X509Leaf(t, e.cert, |x|) else PrecertLeaf(t)))
  {
    var leaf, leaves, i := MerkleTreeLeaf(t, e, x), LeafHashes(H, entries), proof.leafIndex;
    AcceptedProofIsGenuine(H, leaves, LeafHash(H, leaf), proof);
    if Genuine(H, i, leaves, LeafHash(H, leaf), proof.auditPath) {
      if entries[i] == leaf {
        ReaderRecoversLeaf(t, e, x);
        forall t': u64, e': LogEntry, x': seq<byte>
          | e'.Fits() && |x'| <= MAX_U16 && entries[i] == MerkleTreeLeaf(t', e', x')
          ensures t' == t && e' == e && x' == x
        {
          MerkleTreeLeafInjective(t', e', x', t, e, x);
        }
      } else {
        assert ([0x00] + leaf)[1..] == leaf && ([0x00] + entries[i])[1..] == entries[i];
      }
    }
  }
}
