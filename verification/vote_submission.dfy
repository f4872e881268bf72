/** The validation prefix of a vote submission: the checks run before the
    Merkle proof is generated, the lookup of the note's hash among the loaded
    leaves, and the proof for the index found. */
module VoteSubmission {
  import opened MerkleTree
  import opened MerkleProof

  /** How a submission ends before the network part begins. */
  datatype Outcome =
    | MissingInput
    | NotLoaded
    | NoteNotFound
    | ProofGenerated(index: nat, proof: seq<string>)

  const MissingInputMessage := "Please enter your note and select Yes or No."
  const NotLoadedMessage := "Please upload the notes file from the admin first."
  const NoteNotFoundMessage := "Note not found in Merkle leaves. Are you using the correct note?"

  /** The console message a failed submission shows. */
  function FailureMessage(o: Outcome): (m: string)
    requires !o.ProofGenerated?
    ensures m == MissingInputMessage <==> o == MissingInput
    ensures m == NotLoadedMessage <==> o == NotLoaded
    ensures m == NoteNotFoundMessage <==> o == NoteNotFound
  {
    match o
    case MissingInput => MissingInputMessage
    case NotLoaded => NotLoadedMessage
    case NoteNotFound => NoteNotFoundMessage
  }

  /** The first position of `x` in `xs`, or -1 when it does not occur. */
  function IndexOf(xs: seq<string>, x: string): (r: int)
    ensures -1 <= r < |xs|
    ensures r == -1 <==> x !in xs
    ensures r >= 0 ==> xs[r] == x && forall j :: 0 <= j < r ==> xs[j] != x
  {
    if |xs| == 0 then -1
    else if xs[0] == x then 0
    else
      var r := IndexOf(xs[1..], x);
      if r == -1 then -1 else r + 1
  }

  /** The checks of a submission in their fixed order: both note and vote
      given, then a root and leaves loaded, then the note's hash found among
      the leaves; the proof is generated for the first matching index. An
      empty string counts as missing. */
  function Submit(H: Hasher, note: string, vote: string, merkleRoot: string, leaves: seq<string>): (o: Outcome)
    ensures o == MissingInput <==> note == "" || vote == ""
    ensures o == NotLoaded <==> note != "" && vote != "" && (merkleRoot == "" || |leaves| == 0)
    ensures o == NoteNotFound <==>
      note != "" && vote != "" && merkleRoot != "" && |leaves| > 0 && H(note) !in leaves
    ensures o.ProofGenerated? ==>
      && o.index < |leaves|
      && leaves[o.index] == H(note)
      && (forall j :: 0 <= j < o.index ==> leaves[j] != H(note))
      && o.proof == ProofFrom(H, leaves, o.index)
  {
    if note == "" || vote == "" then MissingInput
    else if merkleRoot == "" || |leaves| == 0 then NotLoaded
    else
      var index := IndexOf(leaves, H(note));
      if index == -1 then NoteNotFound
      else ProofGenerated(index, ProofFrom(H, leaves, index))
  }

  /** A generated proof always folds back, from the note's hash, to the root
      of the loaded leaves; the loaded root string itself is never compared. */
  lemma SubmittedProofReconstructsRoot(H: Hasher, note: string, vote: string, merkleRoot: string, leaves: seq<string>)
    requires Submit(H, note, vote, merkleRoot, leaves).ProofGenerated?
    ensures var o := Submit(H, note, vote, merkleRoot, leaves);
      MerkleRoot(H, leaves) == Some(Fold(H, H(note), o.proof, o.index))
  {
    var o := Submit(H, note, vote, merkleRoot, leaves);
    FoldReconstructsRoot(H, leaves, o.index);
  }

  /** The root the voter reads from the admin's file: a batch without a root
      is written without that field and reads back as the empty string. */
  function LoadedRoot(b: Batch): (r: string)
    ensures r != "" ==> b.merkleRoot == Some(r)
    ensures r == "" <==> b.merkleRoot == None || b.merkleRoot == Some("")
  {
    match b.merkleRoot
    case Some(r) => r
    case None => ""
  }

  /** End to end: a voter holding any note of a batch, with a vote chosen and
      the batch loaded, gets a proof that folds from the note's hash to the
      root the admin published. */
  lemma {:induction false} VoterReachesPublishedRoot(H: Hasher, notes: seq<string>, note: string, vote: string)
    requires forall s :: H(s) != ""
    requires note in notes && note != "" && vote != ""
    ensures var b := GenerateBatch(H, notes);
      var o := Submit(H, note, vote, LoadedRoot(b), b.noteHashes);
      o.ProofGenerated? && b.merkleRoot == Some(Fold(H, H(note), o.proof, o.index))
  {
    var b := GenerateBatch(H, notes);
    var k :| 0 <= k < |notes| && notes[k] == note;
    assert b.noteHashes[k] == H(note);
    var top := TreeFrom(H, b.noteHashes)[0];
    TreeLevels(H, b.noteHashes);
    var tree := TreeFrom(H, b.noteHashes);
    if |tree| == 1 {
      assert b.noteHashes == top;
    } else {
      assert top == NextLevel(H, tree[1]);
    }
    assert LoadedRoot(b) == top[0] != "";
    var o := Submit(H, note, vote, LoadedRoot(b), b.noteHashes);
    assert o.ProofGenerated?;
    SubmittedProofReconstructsRoot(H, note, vote, LoadedRoot(b), b.noteHashes);
  }
}
