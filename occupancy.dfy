/**
 * Occupancy vectors: which cells of a table are in use (directory entries
 * that are not empty, slots that carry the magic). Both consolidation loops
 * move one in-use cell down by one place at a time; the facts here say that
 * such a move keeps the number of used cells and lowers the sum of their
 * indices by one, which is what makes the restarting loops terminate.
 */
module Occupancy {

  /** Number of used cells. */
  function Count(b: seq<bool>): (n: nat)
    ensures n <= |b|
  {
    if b == [] then 0 else Count(b[..|b| - 1]) + (if b[|b| - 1] then 1 else 0)
  }

  /** Sum of the indices of the used cells. */
  function Weight(b: seq<bool>): nat {
    if b == [] then 0 else Weight(b[..|b| - 1]) + (if b[|b| - 1] then |b| - 1 else 0)
  }

  /** Setting one cell changes the count and the weight by that cell's share only. */
  lemma {:induction false} UpdateOne(b: seq<bool>, i: nat, v: bool)
    requires i < |b|
    ensures Count(b[i := v]) + (if b[i] then 1 else 0) == Count(b) + (if v then 1 else 0)
    ensures Weight(b[i := v]) + (if b[i] then i else 0) == Weight(b) + (if v then i else 0)
  {
    var c := b[i := v];
    var n := |b|;
    if i == n - 1 {
      assert c[..n - 1] == b[..n - 1];
    } else {
      assert c[..n - 1] == b[..n - 1][i := v];
      UpdateOne(b[..n - 1], i, v);
    }
  }

  /** Moving a used cell from i+1 down into an unused cell i. */
  lemma MoveDown(b: seq<bool>, i: nat)
    requires i + 1 < |b| && !b[i] && b[i + 1]
    ensures Count(b[i := true][i + 1 := false]) == Count(b)
    ensures Weight(b[i := true][i + 1 := false]) + 1 == Weight(b)
  {
    UpdateOne(b, i, true);
    UpdateOne(b[i := true], i + 1, false);
  }

  /** The count of a prefix grows by the next cell. */
  lemma PrefixCount(b: seq<bool>, n: nat)
    requires n < |b|
    ensures Count(b[..n + 1]) == Count(b[..n]) + (if b[n] then 1 else 0)
  {
    assert b[..n + 1][..n] == b[..n];
  }
}
