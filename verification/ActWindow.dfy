/** The activation window of a DRAM rank: a circular buffer of the last n activation (ACT) cycles, oldest
    first, into which a new ACT is inserted in order while the oldest one is dropped. A new ACT must come at
    least tFAW after the cycle at the front.
 */
module ActWindow {

  // ---------------------------------------------------------------- the window as a list

  /** The last position from 1 on whose cycle is at most a, or 0. */
  function Last(w: seq<int>, a: int): (k: int)
    requires w != []
    ensures 0 <= k < |w|
  {
    LastBelow(w, a, |w| - 1)
  }

  function LastBelow(w: seq<int>, a: int, top: int): (k: int)
    requires 0 <= top < |w|
    ensures 0 <= k <= top
  {
    if top == 0 || w[top] <= a then top else LastBelow(w, a, top - 1)
  }

  lemma {:induction false} LastBelowIs(w: seq<int>, a: int, top: int)
    requires 0 <= top < |w|
    ensures var k := LastBelow(w, a, top); (k > 0 ==> w[k] <= a) && forall j | k < j <= top :: w[j] > a
  {
    if top > 0 && w[top] > a {
      LastBelowIs(w, a, top - 1);
    }
  }

  /** Entry 0 goes and x is put after entry k. When a new ACT precedes all the others, the loop that looks for
      its place runs into its own writes, and the latest entry ends up in front. */
  function Placed<T>(w: seq<T>, k: int, x: T): (r: seq<T>)
    requires 0 <= k < |w|
    ensures |r| == |w|
  {
    if k > 0 || |w| == 1 then w[1..k + 1] + [x] + w[k + 1..] else [w[|w| - 1]] + w[1..|w| - 1] + [x]
  }

  function Added(w: seq<int>, a: int): (r: seq<int>)
    requires w != []
    ensures |r| == |w|
  {
    Placed(w, Last(w, a), a)
  }

  ghost predicate Sorted(w: seq<int>) {
    forall i, j | 0 <= i < j < |w| :: w[i] <= w[j]
  }

  /** The window stays sorted exactly when the new ACT does not precede all the others it stays with. */
  lemma SortedAfter(w: seq<int>, a: int)
    requires w != [] && Sorted(w)
    ensures Sorted(Added(w, a)) <==> |w| == 1 || a >= w[1]
  {
    LastBelowIs(w, a, |w| - 1);
    var k, r := Last(w, a), Added(w, a);
    if k > 0 || |w| == 1 {
      forall i, j | 0 <= i < j < |r| ensures r[i] <= r[j] {
        assert i < k ==> r[i] == w[i + 1];
        assert j < k ==> r[j] == w[j + 1];
        assert i > k ==> r[i] == w[i];
        assert j > k ==> r[j] == w[j];
      }
    } else {
      assert r[|r| - 1] == a;
      assert r[0] == w[|w| - 1];
    }
  }

  /** After such an ACT the front of the window is its latest entry. */
  lemma FrontIsLatest(w: seq<int>, a: int)
    requires |w| > 1 && Sorted(w) && a < w[1]
    ensures Added(w, a)[0] == w[|w| - 1] && forall i | 0 <= i < |w| :: Added(w, a)[i] <= Added(w, a)[0]
  {
    LastBelowIs(w, a, |w| - 1);
  }

  // ---------------------------------------------------------------- runs

  function Zeros(n: nat): seq<int> {
    seq(n, _ => 0)
  }

  /** The window after some ACTs, in the order in which they are recorded. */
  ghost function Run(acts: seq<int>, n: nat): (w: seq<int>)
    requires n > 0
    ensures |w| == n
  {
    if acts == [] then Zeros(n) else Added(Run(acts[..|acts| - 1], n), acts[|acts| - 1])
  }

  /** Every ACT comes at least faw after the cycle at the front of the window. */
  ghost predicate Legal(acts: seq<int>, n: nat, faw: nat)
    requires n > 0
  {
    acts != [] ==> Legal(acts[..|acts| - 1], n, faw) && acts[|acts| - 1] >= Run(acts[..|acts| - 1], n)[0] + faw
  }

  lemma OneMore(acts: seq<int>, a: int, n: nat, faw: nat)
    requires n > 0
    ensures Run(acts + [a], n) == Added(Run(acts, n), a)
    ensures Legal(acts + [a], n, faw) <==> Legal(acts, n, faw) && a >= Run(acts, n)[0] + faw
  {
    assert (acts + [a])[..|acts|] == acts;
  }

  /** An ACT no earlier than the last one goes to the end. */
  lemma AddedLast(acts: seq<int>, a: int, n: nat, faw: nat)
    requires n > 0 && Legal(acts, n, faw) && a >= Run(acts, n)[0] + faw && a >= Run(acts, n)[n - 1]
    ensures Legal(acts + [a], n, faw) && Run(acts + [a], n) == Run(acts, n)[1..] + [a]
  {
    OneMore(acts, a, n, faw);
  }

  /** The first n ACTs fill the window if they come in order. */
  lemma {:induction false} Fills(acts: seq<int>, n: nat, faw: nat)
    requires n > 0 && |acts| <= n && Sorted(acts) && forall i | 0 <= i < |acts| :: acts[i] >= faw
    ensures Legal(acts, n, faw) && Run(acts, n) == Zeros(n - |acts|) + acts
  {
    if acts != [] {
      var before, a := acts[..|acts| - 1], acts[|acts| - 1];
      assert before + [a] == acts;
      Fills(before, n, faw);
      Slid(before, a, n - |acts|);
      assert a >= Run(before, n)[n - 1] && Run(before, n)[0] == 0;
      AddedLast(before, a, n, faw);
    }
  }

  lemma Slid(before: seq<int>, a: int, zeros: nat)
    ensures (Zeros(zeros + 1) + before)[1..] + [a] == Zeros(zeros) + (before + [a])
    ensures (Zeros(zeros + 1) + before)[0] == 0
    ensures (Zeros(zeros + 1) + before)[zeros + |before|] == if before == [] then 0 else before[|before| - 1]
  {
  }

  /** The window is sorted after some ACTs, and not after one more that is legal. */
  ghost predicate Unsorts(acts: seq<int>, a: int, n: nat, faw: nat)
    requires n > 0
  {
    Legal(acts + [a], n, faw) && Sorted(Run(acts, n)) && !Sorted(Run(acts + [a], n))
  }

  /** It happens: n ACTs in order, and then that of a request which they have overtaken, at a cycle that only the
      oldest of them precedes. */
  lemma MayUnsort(acts: seq<int>, a: int, n: nat, faw: nat)
    requires |acts| == n > 1 && Sorted(acts) && acts[0] >= faw && acts[0] + faw <= a < acts[1]
    ensures Unsorts(acts, a, n, faw)
  {
    Fills(acts, n, faw);
    assert Zeros(0) + acts == acts;
    OneMore(acts, a, n, faw);
    SortedAfter(acts, a);
  }

  /** With n = 4: ACTs at 10, 50, 51 and 52, and then at 20. */
  lemma FourThenEarlier() returns (acts: seq<int>, a: int)
    ensures acts == [10, 50, 51, 52] && a == 20 && Unsorts(acts, a, 4, 10)
  {
    acts, a := [10, 50, 51, 52], 20;
    MayUnsort(acts, a, 4, 10);
  }

  /** Every entry of the window belongs to a chain; a new ACT continues the chain of the entry it drops.
      Chains gives the chain of each ACT, Ids the chain of each entry. */
  ghost function Ids(acts: seq<int>, n: nat): (r: seq<int>)
    requires n > 0
    ensures |r| == n
  {
    if acts == [] then seq(n, i => i)
    else
      var before := acts[..|acts| - 1];
      Placed(Ids(before, n), Last(Run(before, n), acts[|acts| - 1]), Ids(before, n)[0])
  }

  ghost function Chains(acts: seq<int>, n: nat): (r: seq<int>)
    requires n > 0
    ensures |r| == |acts|
  {
    if acts == [] then [] else Chains(acts[..|acts| - 1], n) + [Ids(acts[..|acts| - 1], n)[0]]
  }

  ghost predicate Distinct(r: seq<int>, n: nat) {
    InRange(r, n) && forall i, j | 0 <= i < j < |r| :: r[i] != r[j]
  }

  ghost predicate InRange(r: seq<int>, n: nat) {
    forall i | 0 <= i < |r| :: 0 <= r[i] < n
  }

  /** Where each entry of the new window comes from. */
  ghost function From(k: int, n: int, i: int): int {
    if k > 0 || n == 1 then (if i < k then i + 1 else if i == k then 0 else i)
    else (if i == 0 then n - 1 else if i == n - 1 then 0 else i)
  }

  lemma PlacedFrom<T>(w: seq<T>, k: int, x: T, i: int)
    requires 0 <= k < |w| && 0 <= i < |w|
    ensures 0 <= From(k, |w|, i) < |w|
    ensures Placed(w, k, x)[i] == if From(k, |w|, i) == 0 then x else w[From(k, |w|, i)]
  {
  }

  lemma PlacedDistinct(r: seq<int>, k: int, n: nat)
    requires 0 <= k < |r| && Distinct(r, n)
    ensures Distinct(Placed(r, k, r[0]), n)
  {
    var p := Placed(r, k, r[0]);
    forall i | 0 <= i < |r| ensures p[i] == r[From(k, |r|, i)] && 0 <= From(k, |r|, i) < |r| {
      PlacedFrom(r, k, r[0], i);
    }
    forall i, j | 0 <= i < j < |r| ensures p[i] != p[j] {
      var a, b := From(k, |r|, i), From(k, |r|, j);
      assert if a < b then r[a] != r[b] else r[b] != r[a];
    }
  }

  /** Entry p bounds its chain, and ACTs of a chain are at least faw apart. */
  ghost predicate ChainsOk(acts: seq<int>, chain: seq<int>, w: seq<int>, ids: seq<int>, faw: nat)
    requires |chain| == |acts| && |w| == |ids|
  {
    && (forall i, p | 0 <= i < |acts| && 0 <= p < |w| && chain[i] == ids[p] :: acts[i] <= w[p])
    && (forall i, j | 0 <= i < j < |acts| && chain[i] == chain[j] :: acts[j] >= acts[i] + faw)
  }

  lemma ChainStep(acts: seq<int>, chain: seq<int>, w: seq<int>, ids: seq<int>, a: int, n: nat, faw: nat)
    requires |chain| == |acts| && |w| == |ids| == n > 0 && Distinct(ids, n)
    requires ChainsOk(acts, chain, w, ids, faw) && a >= w[0] + faw
    ensures ChainsOk(acts + [a], chain + [ids[0]], Added(w, a), Placed(ids, Last(w, a), ids[0]), faw)
  {
    var k := Last(w, a);
    var w', ids' := Added(w, a), Placed(ids, k, ids[0]);
    var acts', chain' := acts + [a], chain + [ids[0]];
    forall i, p | 0 <= i < |acts'| && 0 <= p < n && chain'[i] == ids'[p] ensures acts'[i] <= w'[p] {
      var q := From(k, n, p);
      PlacedFrom(w, k, a, p);
      PlacedFrom(ids, k, ids[0], p);
      assert ids'[p] == ids[q];
      if i < |acts| {
        assert chain[i] == ids[q];
        assert acts[i] <= w[q];
      }
    }
    forall i | 0 <= i < |acts| && chain[i] == ids[0] ensures a >= acts[i] + faw {
      assert acts[i] <= w[0];
    }
  }

  lemma InRangeAppend(r: seq<int>, x: int, n: nat)
    requires InRange(r, n) && 0 <= x < n
    ensures InRange(r + [x], n)
  {
  }

  lemma {:induction false} ChainsHold(acts: seq<int>, n: nat, faw: nat)
    requires n > 0 && Legal(acts, n, faw)
    ensures Distinct(Ids(acts, n), n) && InRange(Chains(acts, n), n)
    ensures ChainsOk(acts, Chains(acts, n), Run(acts, n), Ids(acts, n), faw)
  {
    if acts != [] {
      var before, a := acts[..|acts| - 1], acts[|acts| - 1];
      assert acts == before + [a];
      ChainsHold(before, n, faw);
      var w, ids, chain := Run(before, n), Ids(before, n), Chains(before, n);
      PlacedDistinct(ids, Last(w, a), n);
      InRangeAppend(chain, ids[0], n);
      ChainStep(before, chain, w, ids, a, n, faw);
    }
  }

  /** More than n indices, each in one of n chains, share a chain. */
  lemma {:induction false} Pigeonhole(J: set<int>, chain: seq<int>, n: nat) returns (i: int, j: int)
    requires n > 0 && |J| > n && forall x | x in J :: 0 <= x < |chain| && 0 <= chain[x] < n
    ensures i in J && j in J && i < j && chain[i] == chain[j]
    decreases n
  {
    var last := set x | x in J && chain[x] == n - 1;
    if n == 1 {
      assert last == J;
    }
    if |last| > 1 {
      i, j := Two(last);
    } else {
      var rest := J - last;
      assert |rest| == |J| - |last| by {
        assert rest + last == J && rest !! last;
      }
      i, j := Pigeonhole(rest, chain, n - 1);
    }
  }

  lemma Two(A: set<int>) returns (i: int, j: int)
    requires |A| > 1
    ensures i in A && j in A && i < j
  {
    if forall x :: x !in A {
      assert false;
    }
    var x :| x in A;
    assert A == A - {x} + {x} && |A| == |A - {x}| + 1;
    if forall y :: y !in A - {x} {
      assert false;
    }
    var y :| y in A - {x};
    i, j := if x < y then x else y, if x < y then y else x;
  }

  /** In every run, whatever the order in which they are recorded, some two of any n + 1 ACTs are at least
      faw apart: never more than n ACTs in a span of less than faw. */
  lemma NeverTooMany(acts: seq<int>, n: nat, faw: nat, J: set<int>)
    requires n > 0 && Legal(acts, n, faw)
    requires |J| == n + 1 && forall x | x in J :: 0 <= x < |acts|
    ensures exists i, j :: i in J && j in J && acts[j] >= acts[i] + faw
  {
    ChainsHold(acts, n, faw);
    var i, j := Pigeonhole(J, Chains(acts, n), n);
    assert acts[j] >= acts[i] + faw;
  }

  // ---------------------------------------------------------------- the latest ACTs

  /** How many cycles of the list lie beyond x. */
  ghost function Above(w: seq<int>, x: int): nat {
    if w == [] then 0 else Above(w[..|w| - 1], x) + if w[|w| - 1] > x then 1 else 0
  }

  lemma {:induction false} AboveConcat(v: seq<int>, w: seq<int>, x: int)
    ensures Above(v + w, x) == Above(v, x) + Above(w, x)
  {
    if w == [] {
      assert v + w == v;
    } else {
      AboveConcat(v, w[..|w| - 1], x);
      assert (v + w)[..|v + w| - 1] == v + w[..|w| - 1];
    }
  }

  lemma AbovePlaced(w: seq<int>, k: int, a: int, x: int)
    requires 0 <= k < |w|
    ensures Above(Placed(w, k, a), x) == Above(w, x) + (if a > x then 1 else 0) - if w[0] > x then 1 else 0
  {
    var rest := w[1..];
    assert w == [w[0]] + rest;
    AboveConcat([w[0]], rest, x);
    AboveSingle(w[0], x);
    if k > 0 || |w| == 1 {
      assert Placed(w, k, a) == rest[..k] + [a] + rest[k..];
      AboveMiddle(rest, k, a, x);
    } else {
      assert Placed(w, k, a) == [rest[|rest| - 1]] + rest[..|rest| - 1] + [a];
      AboveEnds(rest, a, x);
    }
  }

  lemma AboveMiddle(w: seq<int>, k: int, a: int, x: int)
    requires 0 <= k <= |w|
    ensures Above(w[..k] + [a] + w[k..], x) == Above(w, x) + if a > x then 1 else 0
  {
    var u, v := w[..k], w[k..];
    AboveConcat(u + [a], v, x);
    AboveConcat(u, [a], x);
    AboveSingle(a, x);
    AboveConcat(u, v, x);
    assert w == u + v;
  }

  lemma AboveEnds(w: seq<int>, a: int, x: int)
    requires w != []
    ensures Above([w[|w| - 1]] + w[..|w| - 1] + [a], x) == Above(w, x) + if a > x then 1 else 0
  {
    var u, top := w[..|w| - 1], w[|w| - 1];
    AboveConcat([top] + u, [a], x);
    AboveConcat([top], u, x);
    AboveSingle(a, x);
    AboveSingle(top, x);
  }

  lemma AboveSingle(a: int, x: int)
    ensures Above([a], x) == if a > x then 1 else 0
  {
    assert [a][..0] == [];
  }

  /** No new ACT precedes all the others in the window at its time. */
  ghost predicate NearlyInOrder(acts: seq<int>, n: nat)
    requires n > 0
  {
    acts != [] ==> NearlyInOrder(acts[..|acts| - 1], n) && (n > 1 ==> acts[|acts| - 1] >= Run(acts[..|acts| - 1], n)[1])
  }

  /** Then the window is sorted and holds the n latest ACTs: beyond its front it misses none. */
  lemma {:induction false} HoldsLatest(acts: seq<int>, n: nat, x: int)
    requires n > 0 && Legal(acts, n, 0) && NearlyInOrder(acts, n) && x >= Run(acts, n)[0]
    ensures Sorted(Run(acts, n)) && Run(acts, n)[0] >= 0 && Above(acts, x) == Above(Run(acts, n), x)
  {
    if acts == [] {
      NoneAbove(Zeros(n), x);
    } else {
      var before, a := acts[..|acts| - 1], acts[|acts| - 1];
      var w := Run(before, n);
      HoldsLatest(before, n, w[0]);
      SortedAfter(w, a);
      LastBelowIs(w, a, n - 1);
      PlacedFrom(w, Last(w, a), a, 0);
      HoldsLatest(before, n, x);
      AbovePlaced(w, Last(w, a), a, x);
    }
  }

  lemma {:induction false} NoneAbove(w: seq<int>, x: int)
    requires forall i | 0 <= i < |w| :: w[i] <= x
    ensures Above(w, x) == 0
  {
    if w != [] {
      NoneAbove(w[..|w| - 1], x);
    }
  }

  // ---------------------------------------------------------------- the circular buffer

  class ActWindow {
    var buf: array<int>
    var idx: int

    ghost predicate Valid()
      reads this, buf
    {
      0 <= idx < buf.Length
    }

    /** The buffer from idx around. */
    ghost function View(): (w: seq<int>)
      requires Valid()
      reads this, buf
      ensures |w| == buf.Length && w[0] == buf[idx]
    {
      buf[idx..] + buf[..idx]
    }

    constructor (size: nat)
      requires size > 0
      ensures Valid() && fresh(buf) && buf.Length == size && View() == Zeros(size)
    {
      buf := new int[size];
      idx := 0;
      new;
      for i := 0 to size
        invariant idx == 0 && buf.Length == size && fresh(buf)
        invariant forall j | 0 <= j < i :: buf[j] == 0
      {
        buf[i] := 0;
      }
    }

    function Inc(i: int): int
      requires 0 <= i < buf.Length
      reads this
    {
      if i < buf.Length - 1 then i + 1 else 0
    }

    function Dec(i: int): int
      requires 0 <= i < buf.Length
      reads this
    {
      if i != 0 then i - 1 else buf.Length - 1
    }

    method MinActCycle() returns (c: int)
      requires Valid()
      ensures c == View()[0]
    {
      c := buf[idx];
    }

    method AddActivation(actCycle: int)
      requires Valid() && buf[idx] <= actCycle
      modifies this`idx, buf
      ensures Valid() && View() == Added(old(View()), actCycle)
    {
      ghost var w := View();
      var cur, k := MakeRoom(actCycle);
      ghost var b := buf[..];
      buf[cur] := actCycle;
      assert buf[..] == b[cur := actCycle];
      ShiftedDone(b, idx, w, k, actCycle);
      idx := Inc(idx);
      assert View() == buf[..][idx..] + buf[..][..idx];
    }

    /** Moves the entries later than actCycle one slot up, over the oldest one, and returns the free slot. */
    method MakeRoom(actCycle: int) returns (cur: int, ghost k: int)
      requires Valid() && buf[idx] <= actCycle
      modifies buf
      ensures Shifted(buf[..], idx, old(View()), k) && cur == Slot(idx, buf.Length, k)
        && (k < buf.Length ==> buf.Length > 1)
      ensures k > 0 ==> buf[Slot(idx, buf.Length, k - 1)] <= actCycle
      ensures forall j | k <= j < buf.Length && j >= 1 :: old(View())[j] > actCycle
    {
      ghost var w, n := View(), buf.Length;
      k := n;
      cur := idx;
      assert Shifted(buf[..], idx, w, n);
      while buf[Dec(cur)] > actCycle
        invariant 0 <= idx < n == |w|
        invariant 1 <= k <= n && cur == Slot(idx, n, k) && (k < n ==> n > 1)
        invariant Shifted(buf[..], idx, w, k)
        invariant forall j | k <= j < n :: w[j] > actCycle
        decreases k
      {
        ghost var b := buf[..];
        ShiftStep(b, idx, w, k, actCycle);
        buf[cur] := buf[Dec(cur)];
        cur := Dec(cur);
        k := k - 1;
        assert buf[..] == b[Slot(idx, n, k + 1) := b[Slot(idx, n, k)]];
        if cur == idx {
          break;
        }
      }
    }
  }

  /** The slot of the j-th entry counted from idx, up to a full turn. */
  function Slot(idx: int, n: int, j: int): (s: int)
    requires 0 <= idx < n && 0 <= j <= n
    ensures 0 <= s < n
  {
    if idx + j < n then idx + j else idx + j - n
  }

  /** The buffer while the loop makes room: from entry k on, the entries have moved one slot up. */
  ghost predicate Shifted(b: seq<int>, idx: int, w: seq<int>, k: int) {
    && 0 <= idx < |b| == |w| && 0 <= k <= |b|
    && (forall j {:trigger w[j]} | 1 <= j < |b| && j <= k :: b[Slot(idx, |b|, j)] == w[j])
    && (forall j {:trigger w[j]} | 1 <= j < |b| && k <= j :: b[Slot(idx, |b|, j + 1)] == w[j])
    && (k == |b| ==> b[idx] == w[0])
    && (k == 0 ==> b[Slot(idx, |b|, 1)] == w[|b| - 1])
  }

  lemma ShiftStep(b: seq<int>, idx: int, w: seq<int>, k: int, a: int)
    requires Shifted(b, idx, w, k) && 1 <= k && (k < |b| ==> |b| > 1) && w[0] <= a
    requires b[Slot(idx, |b|, k - 1)] > a && forall j | k <= j < |b| :: w[j] > a
    ensures Shifted(b[Slot(idx, |b|, k) := b[Slot(idx, |b|, k - 1)]], idx, w, k - 1)
    ensures forall j | k - 1 <= j < |b| && j >= 1 :: w[j] > a
    ensures |b| > 1
  {
  }

  lemma StopsAt(b: seq<int>, idx: int, w: seq<int>, k: int, a: int)
    requires Shifted(b, idx, w, k) && (k < |b| ==> |b| > 1)
    requires k > 0 ==> b[Slot(idx, |b|, k - 1)] <= a
    requires forall j | k <= j < |b| && j >= 1 :: w[j] > a
    ensures Last(w, a) == if k > 0 then k - 1 else 0
    ensures k == 1 ==> |b| == 1
  {
    var n := |b|;
    LastBelowIs(w, a, n - 1);
    assert k > 1 ==> b[Slot(idx, n, k - 1)] == w[k - 1];
    assert n > 1 && k < n ==> b[Slot(idx, n, n)] == w[n - 1];
  }

  lemma EntryDone(b: seq<int>, idx: int, w: seq<int>, k: int, a: int, j: int)
    requires Shifted(b, idx, w, k) && (k < |b| ==> |b| > 1) && (k == 1 ==> |b| == 1) && 0 <= j < |b|
    requires Last(w, a) == if k > 0 then k - 1 else 0
    ensures b[Slot(idx, |b|, k) := a][Slot(idx, |b|, j + 1)] == Added(w, a)[j]
  {
    var n := |b|;
    PlacedFrom(w, Last(w, a), a, j);
    if j + 1 < k {
      assert b[Slot(idx, n, j + 1)] == w[j + 1];
    } else if k < j + 1 && j >= 1 {
      assert b[Slot(idx, n, j + 1)] == w[j];
    }
  }

  lemma Rotated(b: seq<int>, idx: int, j: int)
    requires 0 <= idx < |b| && 0 <= j < |b|
    ensures var i := Slot(idx, |b|, 1); (b[i..] + b[..i])[j] == b[Slot(idx, |b|, j + 1)]
  {
  }

  /** The value written at the place found, and the front moved one slot on, the window is as specified. */
  lemma ShiftedDone(b: seq<int>, idx: int, w: seq<int>, k: int, a: int)
    requires Shifted(b, idx, w, k) && (k < |b| ==> |b| > 1)
    requires k > 0 ==> b[Slot(idx, |b|, k - 1)] <= a
    requires forall j | k <= j < |b| && j >= 1 :: w[j] > a
    ensures var b', i := b[Slot(idx, |b|, k) := a], Slot(idx, |b|, 1); b'[i..] + b'[..i] == Added(w, a)
  {
    StopsAt(b, idx, w, k, a);
    var b', i := b[Slot(idx, |b|, k) := a], Slot(idx, |b|, 1);
    var r := b'[i..] + b'[..i];
    forall j | 0 <= j < |b| ensures r[j] == Added(w, a)[j] {
      Rotated(b', idx, j);
      EntryDone(b, idx, w, k, a, j);
    }
  }
}
