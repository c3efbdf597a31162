/** The cache tree that one line address sees.

    The configuration code admits a single last-level cache, gives every other cache group a parent and
    refuses loops, and the bank a line goes to is a function of its address. For one line the hierarchy is
    therefore a finite tree. Caches are numbered in building order: the last-level cache is 0, and every
    other cache comes after its parent. The parent of cache 0 is the memory, written -1.
 */
module Topology {

  ghost predicate IsTree(t: seq<int>) {
    && |t| > 0
    && t[0] == -1
    && forall i :: 0 < i < |t| ==> 0 <= t[i] < i
  }

  type Tree = t: seq<int> | IsTree(t) witness [-1]

  /** Cache k lies in the subtree rooted at cache a. */
  ghost predicate Under(t: Tree, a: int, k: int)
    requires 0 <= a < |t| && 0 <= k < |t|
    decreases k
  {
    k == a || (k > a && Under(t, a, t[k]))
  }

  /** The child of p whose subtree holds k. */
  ghost function Toward(t: Tree, p: int, k: int): (c: int)
    requires 0 <= p < k < |t|
    requires Under(t, p, k)
    ensures p < c <= k && t[c] == p && Under(t, c, k)
    decreases k
  {
    if t[k] == p then k else
      assert Under(t, p, t[k]);
      Toward(t, p, t[k])
  }

  lemma {:induction false} UnderIsTransitive(t: Tree, a: int, b: int, k: int)
    requires 0 <= a < |t| && 0 <= b < |t| && 0 <= k < |t|
    requires Under(t, a, b) && Under(t, b, k)
    ensures Under(t, a, k)
    decreases k
  {
    if k != b {
      UnderIsTransitive(t, a, b, t[k]);
    }
  }

  /** Two subtrees that share a cache are nested. */
  lemma {:induction false} SubtreesNest(t: Tree, a: int, b: int, k: int)
    requires 0 <= a < |t| && 0 <= b < |t| && 0 <= k < |t|
    requires Under(t, a, k) && Under(t, b, k)
    ensures Under(t, a, b) || Under(t, b, a)
    decreases k
  {
    if k != a && k != b {
      SubtreesNest(t, a, b, t[k]);
    }
  }

  /** The subtrees of two different children of one cache share no cache. */
  lemma SiblingsDisjoint(t: Tree, c: int, d: int, k: int)
    requires 0 < c < |t| && 0 < d < |t| && 0 <= k < |t|
    requires t[c] == t[d] && c != d
    requires Under(t, c, k)
    ensures !Under(t, d, k)
  {
    assert !Under(t, c, t[d]) && !Under(t, d, t[c]);
    if Under(t, d, k) {
      SubtreesNest(t, c, d, k);
    }
  }

  lemma TowardIsUnique(t: Tree, p: int, c: int, k: int)
    requires 0 <= p < c < |t| && 0 <= k < |t|
    requires t[c] == p && Under(t, c, k)
    ensures p < k && Under(t, p, k) && Toward(t, p, k) == c
  {
    UnderIsTransitive(t, p, c, k);
    var d := Toward(t, p, k);
    if c != d {
      SiblingsDisjoint(t, c, d, k);
    }
  }
}
