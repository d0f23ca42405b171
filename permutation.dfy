/**
 * A board transformation that only moves cells around keeps the same values:
 * if every cell i of `s` lands at a distinct position f(i) of `t`, the two
 * sequences hold the same multiset of values.
 */
module Permutation {

  /** `f` sends [0, n) into [0, n) without sending two indices to the same place. */
  ghost predicate InjectiveOn(f: int -> int, n: nat)
  {
    (forall i :: 0 <= i < n ==> 0 <= f(i) < n) &&
    (forall i, j :: 0 <= i < j < n ==> f(i) != f(j))
  }

  /** The targets of f with position k taken out, closed up to fill the gap. */
  function Skip(f: int -> int, k: int): int -> int
  {
    i => if f(i) < k then f(i) else f(i) - 1
  }

  /**
   * Once the last cell of s and the cell of t it lands on are both removed,
   * the closed-up map still moves every remaining cell of s to a distinct
   * remaining cell of t.
   */
  lemma SkipMovesRest<T>(s: seq<T>, t: seq<T>, f: int -> int)
    requires |s| == |t| && 0 < |s|
    requires InjectiveOn(f, |s|)
    requires forall i :: 0 <= i < |s| ==> t[f(i)] == s[i]
    ensures var n, k := |s| - 1, f(|s| - 1);
      InjectiveOn(Skip(f, k), n) &&
      forall i :: 0 <= i < n ==> (t[..k] + t[k + 1..])[Skip(f, k)(i)] == s[..n][i]
  {
    var n, k := |s| - 1, f(|s| - 1);
    var t', g := t[..k] + t[k + 1..], Skip(f, k);
    forall i | 0 <= i < n
      ensures 0 <= g(i) < n && t'[g(i)] == s[..n][i]
    {
      assert f(i) != f(n);
    }
    forall i, j | 0 <= i < j < n
      ensures g(i) != g(j)
    {
      assert f(i) != f(n) && f(j) != f(n);
    }
  }

  lemma {:induction false} MovedCellsKeepMultiset<T>(s: seq<T>, t: seq<T>, f: int -> int)
    requires |s| == |t|
    requires InjectiveOn(f, |s|)
    requires forall i :: 0 <= i < |s| ==> t[f(i)] == s[i]
    ensures multiset(s) == multiset(t)
    decreases |s|
  {
    if |s| > 0 {
      // Remove the last cell of s and the cell of t it landed on, and
      // renumber the remaining target positions.
      var n, k := |s| - 1, f(|s| - 1);
      SkipMovesRest(s, t, f);
      MovedCellsKeepMultiset(s[..n], t[..k] + t[k + 1..], Skip(f, k));
      assert s == s[..n] + [s[n]];
      RemoveOne(t, k);
    }
  }

  /** Taking cell k out of t takes one copy of t[k] out of its multiset. */
  lemma RemoveOne<T>(t: seq<T>, k: nat)
    requires k < |t|
    ensures multiset(t) == multiset(t[..k] + t[k + 1..]) + multiset{t[k]}
  {
    assert t == t[..k] + [t[k]] + t[k + 1..];
  }
}
