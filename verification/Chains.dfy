/** Cluster chains as lists: what a FAT, read entry by entry, links together. */
module Chains {

  /** The FAT links cs[i] to its successor, or ends the chain there. */
  ghost predicate Linked(table: seq<nat>, cs: seq<nat>, i: nat)
    requires i < |cs| && cs[i] < |table|
  {
    if i + 1 < |cs| then table[cs[i]] == cs[i + 1] else table[cs[i]] >= |table|
  }

  /** cs is a whole chain of the FAT from its first cluster on. */
  ghost predicate IsChain(table: seq<nat>, cs: seq<nat>) {
    && (forall i | 0 <= i < |cs| :: 2 <= cs[i] < |table|)
    && (forall i | 0 <= i < |cs| :: Linked(table, cs, i))
  }

  /** The clusters a reader meets when it follows the FAT from c, at most steps of them. */
  ghost function Walk(table: seq<nat>, c: nat, steps: nat): seq<nat>
    decreases steps
  {
    if steps == 0 || c < 2 || c >= |table| then [] else [c] + Walk(table, table[c], steps - 1)
  }

  lemma {:induction false} WalkFrom(table: seq<nat>, cs: seq<nat>, k: nat, steps: nat)
    requires k < |cs| && steps >= |cs| - k
    requires IsChain(table, cs)
    ensures Walk(table, cs[k], steps) == cs[k..]
    decreases |cs| - k
  {
    assert Linked(table, cs, k);
    if k + 1 < |cs| {
      WalkFrom(table, cs, k + 1, steps - 1);
    }
  }

  lemma {:induction false} NoRepeats(n: nat, cs: seq<nat>)
    requires forall i | 0 <= i < |cs| :: cs[i] < n
    requires forall i, j | 0 <= i < j < |cs| :: cs[i] != cs[j]
    ensures |cs| <= n
  {
    if |cs| > 0 {
      assert n > 0 by { assert cs[0] < n; }
      if exists k :: 0 <= k < |cs| && cs[k] == n - 1 {
        var k :| 0 <= k < |cs| && cs[k] == n - 1;
        var rest := cs[..k] + cs[k + 1..];
        assert forall i | 0 <= i < |rest| :: rest[i] == (if i < k then cs[i] else cs[i + 1]);
        NoRepeats(n - 1, rest);
      } else {
        NoRepeats(n - 1, cs);
      }
    }
  }
}
