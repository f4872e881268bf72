/** The simplified Merkle tree of the admin page: an ordered sequence of hash
    strings is reduced level by level, each round hashing adjacent pairs and
    pairing a trailing unpaired node with itself, until one node remains.

    SHA-256 is not modelled: every operation takes the hash function `H` as a
    parameter, so every result here holds for any function on strings. */
module MerkleTree {

  datatype Option<T> = None | Some(value: T)

  /** A hash function on strings (SHA-256 over the hex digests in the application). */
  type Hasher = string -> string

  /** The parent of two nodes: the hash of their concatenation. */
  function Combine(H: Hasher, left: string, right: string): string
  {
    H(left + right)
  }

  /** The node that pair number `k` of `level` produces: positions 2k and
      2k + 1, or position 2k with itself when it is the unpaired last node. */
  function Parent(H: Hasher, level: seq<string>, k: nat): string
    requires 2 * k < |level|
  {
    if 2 * k + 1 < |level| then Combine(H, level[2 * k], level[2 * k + 1])
    else Combine(H, level[2 * k], level[2 * k])
  }

  /** One reduction round, built pair by pair from the front. */
  function NextLevel(H: Hasher, level: seq<string>): (next: seq<string>)
    ensures |next| == (|level| + 1) / 2
    ensures forall k :: 0 <= k < |next| ==> next[k] == Parent(H, level, k)
    ensures |level| > 1 ==> |next| < |level|
  {
    if |level| == 0 then []
    else if |level| == 1 then [Combine(H, level[0], level[0])]
    else
      var rest := NextLevel(H, level[2..]);
      assert forall k :: 1 <= k < |rest| + 1 ==> Parent(H, level[2..], k - 1) == Parent(H, level, k);
      [Combine(H, level[0], level[1])] + rest
  }

  /** Every level from `level` up to the top, the top level first: each round
      puts its new level in front of the ones already computed. */
  function TreeFrom(H: Hasher, level: seq<string>): (tree: seq<seq<string>>)
    ensures |tree| >= 1
    ensures tree[|tree| - 1] == level
    ensures |tree[0]| <= 1
    ensures |level| >= 1 ==> |tree[0]| == 1
    decreases |level|
  {
    if |level| <= 1 then [level]
    else TreeFrom(H, NextLevel(H, level)) + [level]
  }

  /** Each level of the tree is one reduction round of the level below it, and
      only the top level has fewer than two nodes. */
  lemma {:induction false} TreeLevels(H: Hasher, level: seq<string>)
    ensures forall j :: 0 < j < |TreeFrom(H, level)| ==> |TreeFrom(H, level)[j]| > 1
    ensures forall j :: 0 <= j < |TreeFrom(H, level)| - 1 ==>
      TreeFrom(H, level)[j] == NextLevel(H, TreeFrom(H, level)[j + 1])
    decreases |level|
  {
    if |level| > 1 {
      var next := NextLevel(H, level);
      TreeLevels(H, next);
      var rest := TreeFrom(H, next);
      assert TreeFrom(H, level) == rest + [level];
      assert rest[|rest| - 1] == next;
    }
  }

  /** One reduction round adds one level in front of the tree. */
  lemma TreeStep(H: Hasher, level: seq<string>)
    requires |level| > 1
    ensures TreeFrom(H, level) == TreeFrom(H, NextLevel(H, level)) + [level]
  {
  }

  /** The root: the single node of the top level, or none for no leaves. */
  function MerkleRoot(H: Hasher, leaves: seq<string>): (r: Option<string>)
    ensures r.Some? <==> |leaves| > 0
    ensures |leaves| == 1 ==> r == Some(leaves[0])
  {
    var top := TreeFrom(H, leaves)[0];
    if |top| == 0 then None else Some(top[0])
  }

  /** A reduction round does not change the root. */
  lemma RootOfNextLevel(H: Hasher, level: seq<string>)
    requires |level| > 1
    ensures MerkleRoot(H, NextLevel(H, level)) == MerkleRoot(H, level)
  {
    var rest := TreeFrom(H, NextLevel(H, level));
    assert TreeFrom(H, level) == rest + [level];
    assert TreeFrom(H, level)[0] == rest[0];
  }

  /** The inner loop of one round: walk the level two positions at a time,
      pushing the hash of each pair (or of the unpaired last node with itself). */
  method HashPairs(H: Hasher, level: seq<string>) returns (nextLevel: seq<string>)
    ensures nextLevel == NextLevel(H, level)
  {
    nextLevel := [];
    var i := 0;
    while i < |level|
      invariant 0 <= i <= |level| + 1 && i % 2 == 0
      invariant |nextLevel| == i / 2
      invariant forall k :: 0 <= k < |nextLevel| ==> nextLevel[k] == Parent(H, level, k)
      decreases |level| - i
    {
      if i + 1 < |level| {
        nextLevel := nextLevel + [Combine(H, level[i], level[i + 1])];
      } else {
        nextLevel := nextLevel + [Combine(H, level[i], level[i])];
      }
      i := i + 2;
    }
  }

  /** The tree builder in its loop form: a loop over levels whose inner
      loop walks the pairs, each new level pushed in front of the tree. */
  method BuildMerkleTree(H: Hasher, hashes: seq<string>) returns (root: Option<string>, tree: seq<seq<string>>)
    ensures tree == TreeFrom(H, hashes)
    ensures root == MerkleRoot(H, hashes)
    ensures tree[|tree| - 1] == hashes
    ensures |hashes| == 0 <==> root == None
    ensures |hashes| == 0 ==> tree == [[]]
    ensures |hashes| >= 1 ==> tree[0] == [root.value]
    ensures |hashes| >= 1 ==> forall j :: 0 <= j < |tree| ==> |tree[j]| >= 1
  {
    var level := hashes;
    tree := [level];
    ghost var below: seq<seq<string>> := [];
    while |level| > 1
      invariant tree == [level] + below
      invariant TreeFrom(H, hashes) == TreeFrom(H, level) + below
      decreases |level|
    {
      var nextLevel := HashPairs(H, level);
      TreeAdvance(H, hashes, level, below);
      below := [level] + below;
      tree := [nextLevel] + tree;
      level := nextLevel;
    }
    root := if |level| == 0 then None else Some(level[0]);
    TreeFinished(H, hashes, level, below);
    TreeShape(H, hashes);
  }

  /** One round of the builder's loop keeps the levels still to be computed
      in front of those already pushed. */
  lemma TreeAdvance(H: Hasher, hashes: seq<string>, level: seq<string>, below: seq<seq<string>>)
    requires |level| > 1
    requires TreeFrom(H, hashes) == TreeFrom(H, level) + below
    ensures TreeFrom(H, hashes) == TreeFrom(H, NextLevel(H, level)) + ([level] + below)
  {
    TreeStep(H, level);
  }

  /** When the loop stops, the pushed levels are the whole tree and the last
      level holds the root. */
  lemma TreeFinished(H: Hasher, hashes: seq<string>, level: seq<string>, below: seq<seq<string>>)
    requires |level| <= 1
    requires TreeFrom(H, hashes) == TreeFrom(H, level) + below
    ensures TreeFrom(H, hashes) == [level] + below
    ensures MerkleRoot(H, hashes) == if |level| == 0 then None else Some(level[0])
  {
  }

  /** The shape of a finished tree: no root and the tree [[]] for no leaves;
      otherwise the top level is the root alone and no level is empty. */
  lemma TreeShape(H: Hasher, hashes: seq<string>)
    ensures |hashes| == 0 <==> MerkleRoot(H, hashes) == None
    ensures |hashes| == 0 ==> TreeFrom(H, hashes) == [[]]
    ensures |hashes| >= 1 ==> TreeFrom(H, hashes)[0] == [MerkleRoot(H, hashes).value]
    ensures |hashes| >= 1 ==> forall j :: 0 <= j < |TreeFrom(H, hashes)| ==> |TreeFrom(H, hashes)[j]| >= 1
  {
    TreeLevels(H, hashes);
  }

  /** A single leaf is its own root: no hashing round happens. */
  lemma SingleLeafTree(H: Hasher, leaf: string)
    ensures TreeFrom(H, [leaf]) == [[leaf]]
    ensures MerkleRoot(H, [leaf]) == Some(leaf)
  {
  }

  /** Three leaves: the odd one out is hashed with itself. */
  lemma ThreeLeafRoot(H: Hasher, a: string, b: string, c: string)
    ensures NextLevel(H, [a, b, c]) == [H(a + b), H(c + c)]
    ensures MerkleRoot(H, [a, b, c]) == Some(H(H(a + b) + H(c + c)))
  {
    var first := NextLevel(H, [a, b, c]);
    assert first == [H(a + b), H(c + c)];
    RootOfNextLevel(H, [a, b, c]);
    RootOfNextLevel(H, first);
    assert NextLevel(H, first) == [H(H(a + b) + H(c + c))];
  }

  /** The leaf derivation of the minting loop: each minted note's hash is
      pushed in mint order. */
  function LeafHashes(H: Hasher, notes: seq<string>): (hashes: seq<string>)
    ensures |hashes| == |notes|
    ensures forall i :: 0 <= i < |notes| ==> hashes[i] == H(notes[i])
  {
    if |notes| == 0 then []
    else LeafHashes(H, notes[..|notes| - 1]) + [H(notes[|notes| - 1])]
  }

  /** What the admin publishes: the notes, their hashes and the root. */
  datatype Batch = Batch(notes: seq<string>, noteHashes: seq<string>, merkleRoot: Option<string>)

  /** Batch generation once the notes are minted: hash each note, then build
      the tree over those hashes and keep its root. */
  function GenerateBatch(H: Hasher, notes: seq<string>): (b: Batch)
    ensures b.notes == notes
    ensures |b.noteHashes| == |notes|
    ensures forall i :: 0 <= i < |notes| ==> b.noteHashes[i] == H(notes[i])
    ensures b.merkleRoot.Some? <==> |notes| > 0
    ensures b.merkleRoot == MerkleRoot(H, b.noteHashes)
  {
    var hashes := LeafHashes(H, notes);
    Batch(notes, hashes, MerkleRoot(H, hashes))
  }
}
