/** Maps keyed by party numbers from 1 to n, and iterating over them in any order. */
module Parties {
  import opened Common
  import opened NumberTheory

  ghost predicate KeysInRange(keys: set<nat>, n: nat)
  {
    forall k :: k in keys ==> 1 <= k <= n
  }

  /** Keys between 1 and n are all of them exactly when there are n. */
  lemma CompleteExactly(keys: set<nat>, n: nat)
    requires KeysInRange(keys, n)
    ensures |keys| == n <==> forall k :: 1 <= k <= n ==> k in keys
  {
    var all := RangeBelow(n + 1);
    if |keys| == n {
      SubsetOfSameSize(keys, all);
    }
    if forall k :: 1 <= k <= n ==> k in keys {
      assert keys == all;
    }
  }

  /** The keys an iteration has taken and those it has still to take. */
  ghost predicate IsSplit(keys: set<nat>, done: set<nat>, todo: set<nat>) {
    done !! todo && done + todo == keys
  }

  lemma SplitStart(keys: set<nat>)
    ensures IsSplit(keys, {}, keys)
  {
  }

  lemma SplitStep(keys: set<nat>, done: set<nat>, todo: set<nat>, k: nat)
    requires IsSplit(keys, done, todo) && k in todo
    ensures k in keys && k !in done && IsSplit(keys, done + {k}, todo - {k})
  {
  }

  lemma SplitEnd(keys: set<nat>, done: set<nat>, todo: set<nat>)
    requires IsSplit(keys, done, todo) && todo == {}
    ensures done == keys
  {
  }

  lemma KeyBounds(keys: set<nat>, n: nat, k: nat)
    requires KeysInRange(keys, n) && k in keys
    ensures 1 <= k <= n
  {
  }
}
