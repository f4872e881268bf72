# Merkle voting demo: a Dafny model of its pure core

This project models the small amount of self-contained logic of an anonymous-voting
browser demo. Most of the demo's work happens inside an external blockchain SDK and
is not modelled here.

- **Tree builder** (`merkle_tree.dfy`, module `MerkleTree`). The admin hashes every
  minted note into a leaf. The builder then reduces the leaf sequence level by level:
  each round hashes adjacent pairs as `H(left + right)`, and a trailing unpaired node
  is hashed with itself. It returns the root and every level, top level first.
- **Proof generator** (`merkle_proof.dfy`, module `MerkleProof`). It repeats the same
  reduction while tracking one index, and records the sibling of the tracked node at
  each level. `Fold` is the check that a verifier would run. The application itself
  never runs it.
- **Vote submission** (`vote_submission.dfy`, module `VoteSubmission`). These are the
  voter-side checks made before a proof is generated: note and vote present, a root
  and leaves loaded, and the note's hash found with a first-occurrence lookup.
- **Recent transactions** (`transaction_history.dfy`, module `TransactionHistory`).
  A newest-first list that keeps at most ten hashes.
- **Waitlist** (`waitlist.dfy`, module `Waitlist`). Email and age validation, and the
  append to a stored list.

SHA-256 is not modelled. Every operation takes the hash function as a parameter
`H: string -> string`. Every result holds for every hash function, with one exception:
`VoteSubmission.VoterReachesPublishedRoot` assumes that `H` never returns the empty
string. The published root is a hash output, and an empty root would read back as "no
root loaded". A hex SHA-256 digest always has 64 characters, so it is never empty. No
result relies on collision resistance.

The model follows the code, including behaviours that a stricter design would reject as invalid input:

- An empty leaf list is not an error. The builder returns no root (`None`, `undefined`
  in the code) and the tree `[[]]`.
- An out-of-range proof index is not an error either. A negative index, an index past
  the end, and the index one past the end of an even-length list all give the empty
  proof. The index one past the end of an odd-length list gives the proof of the last
  leaf.
- The waitlist accepts an age of exactly 18, although its doc comment says "age > 18".
- The waitlist compares the converted age with 18. A fractional age such as 17.5 or
  1.7e1 is therefore rejected. An age that converts to NaN is accepted, because every
  comparison with NaN is false.

## Model

| member | source | states |
|---|---|---|
| MerkleTree.NextLevel | src/components/AdminPage.js:24-31 | one round yields ceil(n/2) nodes; node k is H(prev[2k] + prev[2k+1]) when 2k+1 < n, else H(x + x) of the unpaired last node x; a level of two or more nodes shrinks |
| MerkleTree.TreeFrom | src/components/AdminPage.js:21-34 | the tree has at least one level; its last entry is the input level unchanged; the top level has at most one node, and exactly one for non-empty input |
| MerkleTree.TreeLevels | src/components/AdminPage.js:23-33 | every level is one reduction round of the level below it, and every level below the top has more than one node (the loop ran while the length exceeded 1) |
| MerkleTree.HashPairs | src/components/AdminPage.js:24-31 | the inner pair loop, stepping by two, produces exactly the next level |
| MerkleTree.BuildMerkleTree | src/components/AdminPage.js:20-36 | the loop's tree is the root-first level list with the input as its last entry; the root is absent exactly for empty input, when the tree is [[]]; otherwise tree[0] == [root] and every level is non-empty |
| MerkleTree.TreeShape | src/components/AdminPage.js:21-35 | no leaves: no root and tree [[]]; otherwise tree[0] == [root] and no level is empty |
| MerkleTree.MerkleRoot | src/components/AdminPage.js:35 | the root (`level[0]` of the last level) exists exactly when there is at least one leaf; a single leaf is its own root |
| MerkleTree.RootOfNextLevel | src/components/AdminPage.js:23-35 | one reduction round does not change the root |
| MerkleTree.SingleLeafTree | src/components/AdminPage.js:23-35 | a single leaf gives tree [[leaf]] and root leaf, with no hashing |
| MerkleTree.ThreeLeafRoot | src/components/AdminPage.js:25-30 | leaves [A, B, C] give level [H(A+B), H(C+C)] and root H(H(A+B) + H(C+C)) |
| MerkleTree.LeafHashes | src/components/AdminPage.js:119-120 | as many leaves as notes, leaf i being H(note i), in mint order |
| MerkleTree.GenerateBatch | src/components/AdminPage.js:119-135 | the published batch keeps the notes, has leaf i == H(note i), and has a root exactly when some note was minted |
| MerkleProof.SiblingAt | src/components/VotingPage.js:32-36 | an even tracked index records its right neighbour, or itself when it is the last node; an odd one records its left neighbour |
| MerkleProof.ProofFrom | src/components/VotingPage.js:25-43 | the proof generator as a recursion over levels; it records at most one sibling per reduction round, so a proof is never longer than the tree's level count minus one |
| MerkleProof.ScanLevel | src/components/VotingPage.js:30-39 | one level's scan computes the builder's next level, records exactly one sibling and halves the index when the scan meets the index, and otherwise records nothing and keeps the index |
| MerkleProof.GetMerkleProof | src/components/VotingPage.js:25-43 | the loop returns the level-by-level proof; for an in-range index it has one sibling per round (levels - 1) and folds from leaves[index] to the builder's root |
| MerkleProof.PathStep | src/components/VotingPage.js:32-36 | the tracked node, hashed with its recorded sibling in the order its parity gives, is the builder's node at index/2 one level up |
| MerkleProof.FoldReconstructsRoot | src/components/VotingPage.js:25-43 | for 0 <= i < n, folding the proof for i from leaves[i] (left operand when the index shifted k times is even) reconstructs the builder's root |
| MerkleProof.ProofLength | src/components/VotingPage.js:29-41 | for an in-range index, proof length equals the tree's level count minus one |
| MerkleProof.TrivialTreeProof | src/components/VotingPage.js:29-42 | zero or one leaf gives the empty proof for any index |
| MerkleProof.OffPathProof | src/components/VotingPage.js:35-37 | an index the first scan never meets stays unmatched at every level and gives the empty proof |
| MerkleProof.OutOfRangeProof | src/components/VotingPage.js:35-37 | a negative index, an index above n, and index n for even n give the empty proof |
| MerkleProof.OnePastEndOfOddList | src/components/VotingPage.js:33-37 | for odd n, index n gives the same proof as index n - 1 |
| VoteSubmission.FailureMessage | src/components/VotingPage.js:87-103 | each failed check shows its own console message: the missing-input, not-loaded and note-not-found messages are distinct, and each belongs to exactly one outcome |
| VoteSubmission.LoadedRoot | src/components/VotingPage.js:69 | the root read from the admin's file is non-empty only when the batch has that root; a missing root and an empty root both read as the empty string |
| VoteSubmission.IndexOf | src/components/VotingPage.js:99 | -1 exactly when the hash is absent; otherwise the first position holding it |
| VoteSubmission.Submit | src/components/VotingPage.js:86-112 | missing note or vote, then missing root or no leaves, then hash not among the leaves, each exactly when its check is the first to fail; otherwise the proof for the first index holding H(note) |
| VoteSubmission.SubmittedProofReconstructsRoot | src/components/VotingPage.js:98-112 | a generated proof folds from H(note) to the root of the loaded leaves |
| VoteSubmission.VoterReachesPublishedRoot | src/components/VotingPage.js:86-112 | for any minted note (hashes never empty), a submission with a vote and the admin's batch loaded generates a proof that folds to the published root |
| TransactionHistory.AddTxHash | src/contexts/TransactionContext.js:7-8 | the new hash comes first, followed by the earlier list shifted down one place, for min(10, previous length + 1) entries in all |
| TransactionHistory.AddTxHashBounds | src/contexts/TransactionContext.js:7-8 | at most 10 entries; below 10 the list grows by one and keeps every earlier hash in order; at 10 or more the oldest is dropped and the nine newest kept; a hash already present is kept twice, not merged |
| TransactionHistory.ReplayKeepsNewest | src/contexts/TransactionContext.js:6-8 | from the empty start, after n additions the list holds min(10, n) hashes, the newest first |
| Waitlist.ToNumber | src/components/WaitlistPage.js:45 | `Number(age)`, rounded down to a whole number: empty text is 0, text without any digit is NaN, and text without a leading minus sign never converts to a negative number |
| Waitlist.LiteralValue | src/components/WaitlistPage.js:45 | an unsigned literal of whole digits, an optional point with fraction digits, and an optional exponent converts to all its digits read as one number, scaled by ten to the power (exponent minus fraction length) and rounded down; after a minus sign, rounded up and negated |
| Waitlist.MinusText | src/components/WaitlistPage.js:45 | a minus sign in front of an unsigned literal makes the conversion negate the value, rounding up before negating |
| Waitlist.PlusText | src/components/WaitlistPage.js:45 | a plus sign in front of an unsigned literal does not change the conversion |
| Waitlist.FractionalValue | src/components/WaitlistPage.js:45 | `w.f` converts to the value of the whole digits w |
| Waitlist.NegativeFractionalValue | src/components/WaitlistPage.js:45 | `-w.f` converts to -w, or to -w - 1 when some fraction digit is not zero (rounding down) |
| Waitlist.ExponentAgeExamples | src/components/WaitlistPage.js:45 | in exponent form, 1.7e1 converts to 17 and 1.8e1 to 18 |
| Waitlist.Decimal | src/components/WaitlistPage.js:75-84 | helper: the text the number field holds for a whole age, a non-empty digit string whose value is that age |
| Waitlist.DecimalRoundTrip | src/components/WaitlistPage.js:45 | number conversion of the decimal text of n, with or without a minus sign, gives n or -n |
| Waitlist.BelowMinimum | src/components/WaitlistPage.js:45 | the comparison `Number(age) < 18`: false for NaN, the ordinary comparison for a number |
| Waitlist.GetWaitlist | src/components/WaitlistPage.js:22-28 | a saved list reads back as saved; a missing value (the `'[]'` default) or an unparseable one (the `catch`) reads as the empty list |
| Waitlist.AddToWaitlist | src/components/WaitlistPage.js:31-35 | appends exactly one entry at the end, earlier entries unchanged and in order |
| Waitlist.HandleSubmit | src/components/WaitlistPage.js:38-52 | an empty email or age gives the missing-fields error, taking precedence; an age below 18 gives the under-age error; otherwise no error, one entry {email, age} appended, and the form is marked submitted; rejections change nothing else |
| Waitlist.AgeThreshold | src/components/WaitlistPage.js:45-48 | a whole-number age is accepted exactly when it is at least 18 |
| Waitlist.FractionalAgeThreshold | src/components/WaitlistPage.js:45-50 | an age with a decimal point is rejected as under age exactly when its whole part is below 18; when accepted it is stored as its whole part |
| Waitlist.FractionalAgeExample | src/components/WaitlistPage.js:45-48 | an age of 17.5 gives the under-age error |
| Waitlist.NonNumericAgeAccepted | src/components/WaitlistPage.js:45-50 | an age that converts to NaN passes the under-age check and is stored as NaN |
| Waitlist.UnreadableStoreStartsEmpty | src/components/WaitlistPage.js:22-35 | a missing or unparseable stored list reads as empty, so the first accepted entry is saved alone |
| Waitlist.SubmitKeepsEligible | src/components/WaitlistPage.js:41-50 | stored entries always have an email and an age not below 18 |

## Left out

- SDK calls: client creation, faucet and wallet creation, minting, state sync and the
  timed waits. They are asynchronous calls into an external library. Notes are
  therefore inputs to `GenerateBatch`.
- SHA-256 itself: it is the parameter `H`. Properties that need collision resistance
  are not stated, for example that changing a leaf changes the root.
- The JSON download, and the file upload with its parsing. Both are browser I/O.
  Only the field mapping is modelled: `LoadedRoot` reads a missing root as the empty
  string.
- Browser storage reads and writes, and the entry timestamp. The stored list is a
  `Store` value; the timestamp is omitted.
- Waitlist.ToNumber: the conversion covers the decimal literals a number field holds:
  a sign, digits with at most one point, and an optional exponent. Surrounding
  whitespace, hexadecimal, binary and octal literals and "Infinity" become NaN here,
  whereas JavaScript converts them to numbers. A number field never holds such text.
- Waitlist.ToNumber: the value is rounded down to a whole number, not rounded to the
  nearest double. This decides every comparison with 18 the same way. It differs
  only for literals whose digits go beyond double precision, such as
  17.99999999999999999, which JavaScript rounds up to 18.
- Waitlist.HandleSubmit: an accepted fractional age is stored rounded down, where the
  code stores the double. A NaN age is stored as NaN; the real JSON encoding would
  write it as null.
- Waitlist.HandleSubmit: a stored value that parses to something other than an array,
  such as `{}` or `null`, makes `waitlist.push` at
  src/components/WaitlistPage.js:33 throw, so the entry is never saved. `Store`
  cannot represent such a value. It holds a list, a missing value or an unparseable
  one.
- Waitlist.HandleSubmit: the previous error message is not an input. Clearing it is
  modelled by the result never depending on it.
- The random stand-in transaction hash, and the proof and vote display. These are
  simulated output.
- Any real proof check. The code never compares the generated proof, or a root
  rebuilt from it, with the uploaded root. `Fold` exists only to state the round trip.
- Routing, theming, node selection and React state plumbing.
