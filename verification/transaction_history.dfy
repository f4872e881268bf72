/** The session's list of recent transaction hashes: newest first, at most
    ten kept, the oldest dropped when the list is full. */
module TransactionHistory {

  /** How many hashes the list keeps. */
  const Capacity: nat := 10

  /** The list at the start of a session. */
  const Initial: seq<string> := []

  function Min(a: int, b: int): int
  {
    if a <= b then a else b
  }

  /** Records a new hash in front of at most the nine newest earlier ones.
      Hashes are not deduplicated. */
  function AddTxHash(prev: seq<string>, hash: string): (next: seq<string>)
    ensures |next| == Min(Capacity, |prev| + 1)
    ensures next[0] == hash
    ensures forall k :: 1 <= k < |next| ==> next[k] == prev[k - 1]
  {
    [hash] + prev[..Min(Capacity - 1, |prev|)]
  }

  /** Below capacity the list grows by one and loses nothing; at capacity it
      stays at ten, keeping the nine newest earlier hashes; a hash already
      kept is kept again rather than merged. */
  lemma AddTxHashBounds(prev: seq<string>, hash: string)
    ensures |AddTxHash(prev, hash)| <= Capacity
    ensures |prev| < Capacity ==> AddTxHash(prev, hash) == [hash] + prev
    ensures |prev| >= Capacity ==> AddTxHash(prev, hash)[1..] == prev[..Capacity - 1]
    ensures hash in prev[..|AddTxHash(prev, hash)| - 1] ==> multiset(AddTxHash(prev, hash))[hash] >= 2
  {
    var next := AddTxHash(prev, hash);
    assert next == [hash] + next[1..];
    assert next[1..] == prev[..|next| - 1];
  }

  /** The list after the given hashes were added in order, starting empty. */
  function Replay(added: seq<string>): seq<string>
  {
    if |added| == 0 then Initial
    else AddTxHash(Replay(added[..|added| - 1]), added[|added| - 1])
  }

  /** Whatever was added, the list holds the newest hashes, newest first: the
      last min(10, n) of the n added, in reverse order of addition. */
  lemma {:induction false} ReplayKeepsNewest(added: seq<string>)
    ensures |Replay(added)| == Min(Capacity, |added|)
    ensures forall k :: 0 <= k < |Replay(added)| ==> Replay(added)[k] == added[|added| - 1 - k]
  {
    if |added| > 0 {
      var before := added[..|added| - 1];
      ReplayKeepsNewest(before);
      var prev := Replay(before);
      var next := AddTxHash(prev, added[|added| - 1]);
      assert Replay(added) == next;
      forall k | 1 <= k < |next|
        ensures next[k] == added[|added| - 1 - k]
      {
        assert next[k] == prev[k - 1];
        assert before[|before| - 1 - (k - 1)] == added[|added| - 1 - k];
      }
    }
  }
}
