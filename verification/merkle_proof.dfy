/** The voter-side proof generator: it repeats the tree builder's reduction
    while tracking one index, and at each level records the sibling of the
    tracked node. The application never checks a proof; `Fold` is the check a
    verifier would run, and `FoldReconstructsRoot` shows that it succeeds. */
module MerkleProof {
  import opened MerkleTree

  /** Whether the scan of a level of length `n` over the pair starts 0, 2, 4, …
      meets the tracked index, as the pair start or as its right neighbour. */
  predicate OnPath(n: nat, idx: int)
  {
    0 <= idx && idx - idx % 2 < n
  }

  /** The sibling recorded for the tracked index: its right neighbour when it
      is the left member of its pair (itself when that neighbour is missing),
      its left neighbour when it is the right member. */
  function SiblingAt(level: seq<string>, idx: int): (s: string)
    requires OnPath(|level|, idx)
    ensures idx % 2 == 0 && idx + 1 < |level| ==> s == level[idx + 1]
    ensures idx % 2 == 0 && idx + 1 == |level| ==> s == level[idx]
    ensures idx % 2 == 1 ==> s == level[idx - 1]
  {
    var i := idx - idx % 2;
    if i == idx then (if i + 1 < |level| then level[i + 1] else level[i])
    else level[i]
  }

  /** The proof from `level` upwards for tracked index `idx`; an index the
      scan never meets is carried along unchanged and records nothing. */
  function ProofFrom(H: Hasher, level: seq<string>, idx: int): (proof: seq<string>)
    ensures |proof| <= |TreeFrom(H, level)| - 1
    decreases |level|
  {
    if |level| <= 1 then []
    else if OnPath(|level|, idx) then [SiblingAt(level, idx)] + ProofFrom(H, NextLevel(H, level), idx / 2)
    else ProofFrom(H, NextLevel(H, level), idx)
  }

  /** One round of the proof: what a level's scan records, followed by the
      proof from the next level for the index the scan leaves behind. */
  lemma ProofStep(H: Hasher, level: seq<string>, idx: int, sibling: seq<string>, idx': int)
    requires |level| > 1
    requires OnPath(|level|, idx) ==> sibling == [SiblingAt(level, idx)] && idx' == idx / 2
    requires !OnPath(|level|, idx) ==> sibling == [] && idx' == idx
    ensures ProofFrom(H, level, idx) == sibling + ProofFrom(H, NextLevel(H, level), idx')
  {
  }

  /** Regrouping a concatenation, so the loop below can move a recorded
      sibling from the owed proof onto the proof built so far. */
  lemma AppendAssociative(a: seq<string>, b: seq<string>, c: seq<string>)
    ensures (a + b) + c == a + (b + c)
  {
  }

  /** One level of the proof generator in its loop form: walk the
      pairs, push each parent, and when a pair holds the tracked index record
      the sibling and move the index to the pair's place above. */
  method ScanLevel(H: Hasher, level: seq<string>, idx0: int) returns (nextLevel: seq<string>, sibling: seq<string>, idx: int)
    ensures nextLevel == NextLevel(H, level)
    ensures OnPath(|level|, idx0) ==> sibling == [SiblingAt(level, idx0)] && idx == idx0 / 2
    ensures !OnPath(|level|, idx0) ==> sibling == [] && idx == idx0
  {
    nextLevel := [];
    sibling := [];
    idx := idx0;
    var i := 0;
    while i < |level|
      invariant 0 <= i <= |level| + 1 && i % 2 == 0
      invariant |nextLevel| == i / 2
      invariant forall k :: 0 <= k < |nextLevel| ==> nextLevel[k] == Parent(H, level, k)
      invariant OnPath(|level|, idx0) && idx0 - idx0 % 2 < i ==> sibling == [SiblingAt(level, idx0)] && idx == idx0 / 2
      invariant !(OnPath(|level|, idx0) && idx0 - idx0 % 2 < i) ==> sibling == [] && idx == idx0
      decreases |level| - i
    {
      var left := level[i];
      var right := if i + 1 < |level| then level[i + 1] else left;
      nextLevel := nextLevel + [Combine(H, left, right)];
      if i == idx || i + 1 == idx {
        sibling := sibling + [if i == idx then right else left];
        idx := i / 2;
      }
      i := i + 2;
    }
  }

  /** The proof generator: rounds continue until one node is left, each
      round appending at most one sibling. Each round's next level is the tree
      builder's `NextLevel`, so both walk through the same levels. */
  method GetMerkleProof(H: Hasher, leaves: seq<string>, index: int) returns (proof: seq<string>)
    ensures proof == ProofFrom(H, leaves, index)
    ensures 0 <= index < |leaves| ==> |proof| == |TreeFrom(H, leaves)| - 1
    ensures 0 <= index < |leaves| ==> MerkleRoot(H, leaves) == Some(Fold(H, leaves[index], proof, index))
  {
    proof := [];
    var idx := index;
    var level := leaves;
    while |level| > 1
      invariant proof + ProofFrom(H, level, idx) == ProofFrom(H, leaves, index)
      decreases |level|
    {
      var nextLevel, sibling, idx' := ScanLevel(H, level, idx);
      ProofStep(H, level, idx, sibling, idx');
      AppendAssociative(proof, sibling, ProofFrom(H, nextLevel, idx'));
      proof := proof + sibling;
      level := nextLevel;
      idx := idx';
    }
    assert ProofFrom(H, level, idx) == [];
    if 0 <= index < |leaves| {
      ProofLength(H, leaves, index);
      FoldReconstructsRoot(H, leaves, index);
    }
  }

  /** Recomputes a root from a leaf, its index and a proof: at step k the
      running hash is the left operand exactly when the index shifted right k
      times is even. */
  function Fold(H: Hasher, leaf: string, proof: seq<string>, index: nat): string
    decreases |proof|
  {
    if |proof| == 0 then leaf
    else
      var up := if index % 2 == 0 then Combine(H, leaf, proof[0]) else Combine(H, proof[0], leaf);
      Fold(H, up, proof[1..], index / 2)
  }

  /** The node on the tracked path hashed with its recorded sibling, in the
      order the index's parity gives, is the tracked node one level up. */
  lemma PathStep(H: Hasher, level: seq<string>, idx: nat)
    requires idx < |level|
    ensures idx / 2 < |NextLevel(H, level)|
    ensures NextLevel(H, level)[idx / 2] ==
      if idx % 2 == 0 then Combine(H, level[idx], SiblingAt(level, idx))
      else Combine(H, SiblingAt(level, idx), level[idx])
  {
    assert NextLevel(H, level)[idx / 2] == Parent(H, level, idx / 2);
  }

  /** Round trip: folding the proof generated for an in-range index against
      that leaf rebuilds the tree builder's root. */
  lemma {:induction false} FoldReconstructsRoot(H: Hasher, level: seq<string>, idx: nat)
    requires idx < |level|
    ensures MerkleRoot(H, level) == Some(Fold(H, level[idx], ProofFrom(H, level, idx), idx))
    decreases |level|
  {
    if |level| > 1 {
      var next := NextLevel(H, level);
      var proof := ProofFrom(H, level, idx);
      assert OnPath(|level|, idx);
      assert proof == [SiblingAt(level, idx)] + ProofFrom(H, next, idx / 2);
      PathStep(H, level, idx);
      FoldReconstructsRoot(H, next, idx / 2);
      RootOfNextLevel(H, level);
      assert proof[1..] == ProofFrom(H, next, idx / 2);
    }
  }

  /** For an in-range index the proof has one sibling per reduction round,
      that is one fewer than the number of levels the tree builder keeps. */
  lemma {:induction false} ProofLength(H: Hasher, level: seq<string>, idx: nat)
    requires idx < |level|
    ensures |ProofFrom(H, level, idx)| == |TreeFrom(H, level)| - 1
    decreases |level|
  {
    if |level| > 1 {
      var next := NextLevel(H, level);
      assert OnPath(|level|, idx);
      ProofLength(H, next, idx / 2);
      assert TreeFrom(H, level) == TreeFrom(H, next) + [level];
    }
  }

  /** A tree of at most one leaf needs no proof, whatever the index. */
  lemma TrivialTreeProof(H: Hasher, leaves: seq<string>, index: int)
    requires |leaves| <= 1
    ensures ProofFrom(H, leaves, index) == []
  {
  }

  /** An index the first scan never meets is never met higher up either, so it
      yields an empty proof. */
  lemma {:induction false} OffPathProof(H: Hasher, level: seq<string>, idx: int)
    requires !OnPath(|level|, idx)
    ensures ProofFrom(H, level, idx) == []
    decreases |level|
  {
    if |level| > 1 {
      OffPathProof(H, NextLevel(H, level), idx);
    }
  }

  /** Out-of-range indices are not rejected: a negative index, an index past
      the end, and the index one past the end of an even-length list all give
      the empty proof. */
  lemma OutOfRangeProof(H: Hasher, leaves: seq<string>, index: int)
    requires index < 0 || index > |leaves| || (index == |leaves| && |leaves| % 2 == 0)
    ensures ProofFrom(H, leaves, index) == []
  {
    OffPathProof(H, leaves, index);
  }

  /** On an odd-length list the index one past the end lands in the last pair
      and gets the same proof as the last leaf. */
  lemma OnePastEndOfOddList(H: Hasher, leaves: seq<string>)
    requires |leaves| % 2 == 1
    ensures ProofFrom(H, leaves, |leaves|) == ProofFrom(H, leaves, |leaves| - 1)
  {
    var n := |leaves|;
    if n > 1 {
      assert OnPath(n, n) && OnPath(n, n - 1);
      assert SiblingAt(leaves, n) == leaves[n - 1] == SiblingAt(leaves, n - 1);
      assert n / 2 == (n - 1) / 2;
    }
  }
}
