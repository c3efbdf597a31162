/** MESI coherence of one line over a tree of inclusive caches: the controllers as functions on the
    states of all caches. Hierarchy.dfy holds the controllers as they are written, updating their tables
    in place, and proves them equal to these functions.
 */
module Coherence {
  import opened Topology

  datatype MESIState = I | S | E | M
  datatype AccessType = GETS | GETX | PUTS | PUTX
  datatype InvType = INV | INVX

  /** What one cache records for the line: the bottom controller's state, the top controller's directory
      entry, and the version of the line's data that the cache holds. The simulator moves no data;
      versions follow the data that its grants and writeback flags stand for.
   */
  datatype Line = Line(st: MESIState, sharers: set<int>, num: int, excl: bool, ver: int)

  type Lines = seq<Line>

  /** All caches, the version in memory, and the version written by the last store. */
  datatype System = System(lines: Lines, mem: int, latest: int)

  predicate Own(m: MESIState) {
    m == E || m == M
  }

  /** Entry::isExclusive: the raw flag goes stale when the last sharer leaves. */
  predicate IsExcl(l: Line) {
    l.num == 1 && l.excl
  }

  // ---------------------------------------------------------------- invalidations, downwards

  /** MESICC::processInv: the top controller first, then the bottom one. Also returns the writeback flag. */
  function Inval(t: Tree, s: Lines, n: int, ty: InvType): (r: (Lines, bool))
    requires |s| == |t| && 0 <= n < |t|
    ensures |r.0| == |t|
    decreases |t| - n, 1, 0
  {
    var (s1, wb) := SendInvalidates(t, s, n, ty);
    (s1[n := s1[n].(st := if ty == INVX then S else I)], wb || s1[n].st == M)
  }

  function SendInvalidates(t: Tree, s: Lines, p: int, ty: InvType): (r: (Lines, bool))
    requires |s| == |t| && 0 <= p < |t|
    ensures |r.0| == |t|
    decreases |t| - p, 0, |t| + 1
  {
    if ty == INVX && !IsExcl(s[p]) then (s, false)
    else if s[p].num == 0 then (s, false)
    else
      var (s1, wb) := InvalChildren(t, s, p, ty, p + 1);
      (s1[p := if ty == INV then s1[p].(num := 0) else s1[p].(excl := false)], wb)
  }

  /** The loop over the children from c on. A child that reports a writeback hands its data to p. */
  function InvalChildren(t: Tree, s: Lines, p: int, ty: InvType, c: int): (r: (Lines, bool))
    requires |s| == |t| && 0 <= p < c <= |t|
    ensures |r.0| == |t|
    decreases |t| - p, 0, |t| - c
  {
    if c == |t| then (s, false)
    else if c in s[p].sharers then
      var (s1, wb1) := Inval(t, s, c, ty);
      var l := if wb1 then s1[p].(ver := s1[c].ver) else s1[p];
      var l' := if ty == INV then l.(sharers := l.sharers - {c}) else l;
      var (s2, wb2) := InvalChildren(t, s1[p := l'], p, ty, c + 1);
      (s2, wb1 || wb2)
    else InvalChildren(t, s, p, ty, c + 1)
  }

  // ---------------------------------------------------------------- the invariant

  /** The directory entry of p describes its children: inclusion, exactness and exclusivity. */
  ghost predicate Exact(t: Tree, s: Lines, p: int)
    requires |s| == |t| && 0 <= p < |t|
  {
    && (forall c :: c in s[p].sharers ==> p < c < |t| && t[c] == p && s[c].st != I)
    && (forall c | p < c < |t| && t[c] == p && s[c].st != I :: c in s[p].sharers)
    && (forall c | c in s[p].sharers :: Own(s[c].st) <==> IsExcl(s[p]))
    && s[p].num == |s[p].sharers|
    && (s[p].excl ==> s[p].num <= 1)
    && (s[p].sharers != {} ==> s[p].st != I)
    && (IsExcl(s[p]) ==> Own(s[p].st))
  }

  /** The copy in a parent may be behind what is held at or below this cache. */
  predicate Ahead(l: Line, latest: int) {
    l.st == M || l.ver != latest
  }

  /** A valid copy is the newest unless an exclusive child has moved ahead of it. */
  ghost predicate Fresh(t: Tree, s: Lines, p: int, latest: int)
    requires |s| == |t| && 0 <= p < |t|
  {
    s[p].st != I && s[p].ver != latest ==>
      exists c :: c in s[p].sharers && p < c < |t| && Own(s[c].st) && Ahead(s[c], latest)
  }

  ghost predicate Good(t: Tree, s: Lines, p: int, latest: int)
    requires |s| == |t| && 0 <= p < |t|
  {
    Exact(t, s, p) && Fresh(t, s, p, latest) && s[p].ver <= latest
  }

  ghost predicate GoodUnder(t: Tree, s: Lines, a: int, latest: int)
    requires |s| == |t| && 0 <= a < |t|
  {
    forall k {:trigger Good(t, s, k, latest)} | 0 <= k < |t| && Under(t, a, k) :: Good(t, s, k, latest)
  }

  /** The invariant of every reachable state. */
  ghost predicate Inv(t: Tree, y: System) {
    && |y.lines| == |t|
    && (forall p {:trigger Good(t, y.lines, p, y.latest)} | 0 <= p < |t| :: Good(t, y.lines, p, y.latest))
    && y.mem <= y.latest
    && (y.mem != y.latest ==> Own(y.lines[0].st) && Ahead(y.lines[0], y.latest))
  }

  lemma TheMember(A: set<int>) returns (x: int)
    requires |A| == 1
    ensures A == {x}
  {
    if forall y :: y !in A {
      assert false;
    }
    x :| x in A;
    assert |A - {x}| == 0;
    forall y | y in A ensures y == x {
      assert y !in A - {x};
    }
  }

  ghost predicate HasM(t: Tree, s: Lines, a: int)
    requires |s| == |t| && 0 <= a < |t|
  {
    exists k :: 0 <= k < |t| && Under(t, a, k) && s[k].st == M
  }

  /** If a valid copy is behind, some cache strictly below it is in M. */
  lemma {:induction false} StaleHasMBelow(t: Tree, s: Lines, n: int, latest: int)
    requires |s| == |t| && 0 <= n < |t|
    requires GoodUnder(t, s, n, latest)
    requires s[n].st != I && s[n].ver != latest
    ensures exists k :: n < k < |t| && Under(t, n, k) && s[k].st == M
    decreases |t| - n
  {
    assert Under(t, n, n) && Good(t, s, n, latest);
    var c :| c in s[n].sharers && n < c < |t| && Own(s[c].st) && Ahead(s[c], latest);
    assert Under(t, c, c) && Under(t, n, c);
    if s[c].st != M {
      GoodBelow(t, s, n, c, latest);
      StaleHasMBelow(t, s, c, latest);
      var k :| c < k < |t| && Under(t, c, k) && s[k].st == M;
      TowardIsUnique(t, n, c, k);
    }
  }

  lemma GoodBelow(t: Tree, s: Lines, p: int, c: int, latest: int)
    requires |s| == |t| && 0 <= p < c < |t| && t[c] == p
    requires GoodUnder(t, s, p, latest)
    ensures GoodUnder(t, s, c, latest)
  {
    forall k | 0 <= k < |t| && Under(t, c, k) ensures Good(t, s, k, latest) {
      TowardIsUnique(t, p, c, k);
    }
  }

  lemma GoodFrame(t: Tree, s: Lines, s': Lines, a: int, latest: int)
    requires |s| == |s'| == |t| && 0 <= a < |t|
    requires GoodUnder(t, s, a, latest)
    requires forall k | 0 <= k < |t| && Under(t, a, k) :: s'[k] == s[k]
    ensures GoodUnder(t, s', a, latest)
  {
    forall k | 0 <= k < |t| && Under(t, a, k) ensures Good(t, s', k, latest) {
      assert Good(t, s, k, latest);
      forall c | c in s[k].sharers ensures s'[c] == s[c] {
        assert Under(t, a, c);
      }
      forall c | k < c < |t| && t[c] == k ensures s'[c] == s[c] {
        assert Under(t, a, c);
      }
    }
  }

  // ---------------------------------------------------------------- INV clears exactly a subtree

  predicate Cleared(l: Line) {
    l.st == I && l.sharers == {} && l.num == 0
  }

  /** k lies below one of p's sharers from child c on. */
  ghost predicate Reached(t: Tree, s: Lines, p: int, c: int, k: int)
    requires |s| == |t| && 0 <= p < |t| && 0 <= k < |t|
  {
    p < k && Under(t, p, k) && Toward(t, p, k) >= c && Toward(t, p, k) in s[p].sharers
  }

  /** Below p, exactly the subtrees of the sharers from c on are cleared; the flag tells whether they held M. */
  ghost predicate ClearsBelow(t: Tree, s: Lines, s': Lines, p: int, c: int, wb: bool, latest: int)
    requires |s| == |s'| == |t| && 0 <= p < |t|
  {
    && (forall k | 0 <= k < |t| && k != p :: !Reached(t, s, p, c, k) ==> s'[k] == s[k])
    && (forall k | 0 <= k < |t| && Reached(t, s, p, c, k) :: Cleared(s'[k]) && s'[k].ver <= latest)
    && (wb <==> exists k :: 0 <= k < |t| && Reached(t, s, p, c, k) && s[k].st == M)
  }

  /** What sending to p's sharers from c on relies on: each sharer heads a subtree in good order. */
  ghost predicate SharersGood(t: Tree, s: Lines, p: int, c: int, latest: int)
    requires |s| == |t| && 0 <= p < |t|
  {
    forall d | d in s[p].sharers ::
      p < d < |t| && t[d] == p && (d >= c ==> s[d].st != I && GoodUnder(t, s, d, latest))
  }

  lemma {:induction false} InvalClears(t: Tree, s: Lines, n: int, latest: int)
    requires |s| == |t| && 0 <= n < |t|
    requires GoodUnder(t, s, n, latest) && s[n].st != I
    ensures var (s', wb) := Inval(t, s, n, INV);
      && (forall k | 0 <= k < |t| :: !Under(t, n, k) ==> s'[k] == s[k])
      && (forall k | 0 <= k < |t| && Under(t, n, k) :: Cleared(s'[k]) && s'[k].ver <= latest)
      && (wb <==> HasM(t, s, n))
      && s'[n].ver == latest
    decreases |t| - n, 1, 0
  {
    assert Under(t, n, n) && Good(t, s, n, latest);
    forall d | d in s[n].sharers ensures GoodUnder(t, s, d, latest) {
      GoodBelow(t, s, n, d, latest);
    }
    SendClears(t, s, n, latest);
    var (s1, wb) := SendInvalidates(t, s, n, INV);
    SubtreeCleared(t, s, s1, n, wb, latest);
  }

  lemma SubtreeCleared(t: Tree, s: Lines, s1: Lines, n: int, wb: bool, latest: int)
    requires |s| == |s1| == |t| && 0 <= n < |t|
    requires GoodUnder(t, s, n, latest) && s[n].st != I
    requires ClearsBelow(t, s, s1, n, n + 1, wb, latest)
    requires s1[n].ver == if wb then latest else s[n].ver
    ensures forall k | 0 <= k < |t| && Under(t, n, k) && k != n :: Cleared(s1[k]) && s1[k].ver <= latest
    ensures forall k | 0 <= k < |t| && !Under(t, n, k) :: s1[k] == s[k]
    ensures wb || s[n].st == M <==> HasM(t, s, n)
    ensures s1[n].ver == latest
  {
    forall k | 0 <= k < |t| && Under(t, n, k) && k != n ensures Cleared(s1[k]) && s1[k].ver <= latest {
      NotReachedIsInvalid(t, s, n, k, latest);
    }
    FlagTellsM(t, s, s1, n, wb, latest);
  }

  lemma FlagTellsM(t: Tree, s: Lines, s1: Lines, n: int, wb: bool, latest: int)
    requires |s| == |s1| == |t| && 0 <= n < |t|
    requires GoodUnder(t, s, n, latest) && s[n].st != I
    requires ClearsBelow(t, s, s1, n, n + 1, wb, latest)
    ensures wb || s[n].st == M <==> HasM(t, s, n)
    ensures !wb ==> s[n].ver == latest
  {
    assert Under(t, n, n);
    if s[n].ver != latest {
      StaleHasMBelow(t, s, n, latest);
      var k :| n < k < |t| && Under(t, n, k) && s[k].st == M;
      NotReachedIsInvalid(t, s, n, k, latest);
    }
    if HasM(t, s, n) && s[n].st != M {
      var k :| 0 <= k < |t| && Under(t, n, k) && s[k].st == M;
      NotReachedIsInvalid(t, s, n, k, latest);
    }
  }

  lemma NotReachedIsInvalid(t: Tree, s: Lines, n: int, k: int, latest: int)
    requires |s| == |t| && 0 <= n < k < |t| && Under(t, n, k)
    requires GoodUnder(t, s, n, latest)
    ensures Reached(t, s, n, n + 1, k) || (Cleared(s[k]) && s[k].ver <= latest)
  {
    var d := Toward(t, n, k);
    if d !in s[n].sharers {
      assert Under(t, n, n) && Good(t, s, n, latest);
      GoodBelow(t, s, n, d, latest);
      InvalidBelow(t, s, d, k, latest);
    }
  }

  /** Inclusion: below an invalid cache everything is invalid. */
  lemma {:induction false} InvalidBelow(t: Tree, s: Lines, a: int, k: int, latest: int)
    requires |s| == |t| && 0 <= a < |t| && 0 <= k < |t| && Under(t, a, k)
    requires GoodUnder(t, s, a, latest)
    requires s[a].st == I
    ensures Cleared(s[k]) && s[k].ver <= latest
    decreases k
  {
    assert Good(t, s, k, latest);
    if k != a {
      InvalidBelow(t, s, a, t[k], latest);
      assert Good(t, s, t[k], latest);
    }
  }

  /** INV to all sharers of p. */
  lemma {:induction false} SendClears(t: Tree, s: Lines, p: int, latest: int)
    requires |s| == |t| && 0 <= p < |t|
    requires SharersGood(t, s, p, p + 1, latest)
    requires s[p].num == |s[p].sharers|
    ensures var (s', wb) := SendInvalidates(t, s, p, INV);
      && ClearsBelow(t, s, s', p, p + 1, wb, latest)
      && s'[p] == s[p].(sharers := {}, num := 0, ver := if wb then latest else s[p].ver)
    decreases |t| - p, 0, |t| + 1
  {
    if s[p].num != 0 {
      InvalChildrenClears(t, s, p, p + 1, latest);
      assert Earlier(s[p].sharers, p + 1) == {};
    } else {
      assert s[p].sharers == {};
    }
  }

  /** The sharers that sending from child c on leaves in the directory. */
  ghost function Earlier(sharers: set<int>, c: int): set<int> {
    set d | d in sharers && d < c
  }

  lemma EarlierStep(sharers: set<int>, c: int)
    ensures Earlier(sharers - {c}, c + 1) == Earlier(sharers, c)
    ensures c !in sharers ==> Earlier(sharers, c + 1) == Earlier(sharers, c)
  {
  }

  lemma {:induction false} InvalChildrenClears(t: Tree, s: Lines, p: int, c: int, latest: int)
    requires |s| == |t| && 0 <= p < c <= |t|
    requires SharersGood(t, s, p, c, latest)
    ensures var (s', wb) := InvalChildren(t, s, p, INV, c);
      && ClearsBelow(t, s, s', p, c, wb, latest)
      && s'[p] == s[p].(sharers := Earlier(s[p].sharers, c), ver := if wb then latest else s[p].ver)
    decreases |t| - p, 0, |t| - c, 1
  {
    if c == |t| {
      assert Earlier(s[p].sharers, c) == s[p].sharers;
    } else if c !in s[p].sharers {
      InvalChildrenClears(t, s, p, c + 1, latest);
      EarlierStep(s[p].sharers, c);
      var (s', wb) := InvalChildren(t, s, p, INV, c + 1);
      ClearSkip(t, s, s', p, c, wb, latest);
    } else {
      SendOneClears(t, s, p, c, latest);
      var (s2, wb1) := SendOne(t, s, p, c);
      ClearStep(t, s, s2, p, c, wb1, latest);
      InvalChildrenClears(t, s2, p, c + 1, latest);
      EarlierStep(s[p].sharers, c);
      var (s3, wb2) := InvalChildren(t, s2, p, INV, c + 1);
      ClearCompose(t, s, s2, s3, p, c, wb1, wb2, latest);
    }
  }

  /** A child that is no sharer is passed over. */
  lemma ClearSkip(t: Tree, s: Lines, s': Lines, p: int, c: int, wb: bool, latest: int)
    requires |s| == |s'| == |t| && 0 <= p < c < |t| && c !in s[p].sharers
    requires ClearsBelow(t, s, s', p, c + 1, wb, latest)
    ensures ClearsBelow(t, s, s', p, c, wb, latest)
  {
    assert forall k | 0 <= k < |t| :: Reached(t, s, p, c, k) <==> Reached(t, s, p, c + 1, k);
  }

  /** An INV for sharer c alone. */
  ghost function SendOne(t: Tree, s: Lines, p: int, c: int): (r: (Lines, bool))
    requires |s| == |t| && 0 <= p < c < |t|
    ensures |r.0| == |t|
  {
    var (s1, wb) := Inval(t, s, c, INV);
    var l := if wb then s1[p].(ver := s1[c].ver) else s1[p];
    (s1[p := l.(sharers := l.sharers - {c})], wb)
  }

  lemma SendOneClears(t: Tree, s: Lines, p: int, c: int, latest: int)
    requires |s| == |t| && 0 <= p < c < |t| && c in s[p].sharers
    requires SharersGood(t, s, p, c, latest)
    ensures var (s2, wb) := SendOne(t, s, p, c);
      && ChildCleared(t, s, s2, p, c, wb, latest)
      && s2[p] == s[p].(sharers := s[p].sharers - {c}, ver := if wb then latest else s[p].ver)
    decreases |t| - p, 0, |t| - c, 0
  {
    InvalClears(t, s, c, latest);
    assert Under(t, c, c) && !Under(t, c, p);
  }

  /** Child c's subtree is cleared and c is out of p's directory; nothing else has changed. */
  ghost predicate ChildCleared(t: Tree, s: Lines, s2: Lines, p: int, c: int, wb: bool, latest: int)
    requires |s| == |s2| == |t| && 0 <= p < c < |t|
  {
    && t[c] == p && c in s[p].sharers && s2[p].sharers == s[p].sharers - {c}
    && (forall k | 0 <= k < |t| && k != p :: !Under(t, c, k) ==> s2[k] == s[k])
    && (forall k | 0 <= k < |t| && Under(t, c, k) :: Cleared(s2[k]) && s2[k].ver <= latest)
    && (wb <==> HasM(t, s, c))
  }

  /** After the subtree of child c is cleared, the later sharers are as before. */
  lemma ClearStep(t: Tree, s: Lines, s2: Lines, p: int, c: int, wb: bool, latest: int)
    requires |s| == |s2| == |t| && 0 <= p < c < |t|
    requires SharersGood(t, s, p, c, latest) && ChildCleared(t, s, s2, p, c, wb, latest)
    ensures SharersGood(t, s2, p, c + 1, latest)
  {
    forall d | d in s2[p].sharers && d >= c + 1 ensures s2[d].st != I && GoodUnder(t, s2, d, latest) {
      forall k | 0 <= k < |t| && Under(t, d, k) ensures s2[k] == s[k] {
        SiblingsDisjoint(t, d, c, k);
      }
      GoodFrame(t, s, s2, d, latest);
      assert Under(t, d, d);
    }
  }

  lemma ClearCompose(t: Tree, s: Lines, s2: Lines, s3: Lines, p: int, c: int, wb1: bool, wb2: bool, latest: int)
    requires |s| == |s2| == |s3| == |t| && 0 <= p < c < |t|
    requires ChildCleared(t, s, s2, p, c, wb1, latest)
    requires ClearsBelow(t, s2, s3, p, c + 1, wb2, latest)
    ensures ClearsBelow(t, s, s3, p, c, wb1 || wb2, latest)
  {
    forall k | 0 <= k < |t|
      ensures Under(t, c, k) ==> Reached(t, s, p, c, k) && !Reached(t, s2, p, c + 1, k)
      ensures !Under(t, c, k) ==> (Reached(t, s, p, c, k) <==> Reached(t, s2, p, c + 1, k))
    {
      if Under(t, c, k) {
        TowardIsUnique(t, p, c, k);
      }
    }
    if wb1 {
      var k :| 0 <= k < |t| && Under(t, c, k) && s[k].st == M;
      assert Reached(t, s, p, c, k);
    }
    if wb2 {
      var k :| 0 <= k < |t| && Reached(t, s2, p, c + 1, k) && s2[k].st == M;
      assert Reached(t, s, p, c, k) && s[k].st == M;
    }
    if exists k :: 0 <= k < |t| && Reached(t, s, p, c, k) && s[k].st == M {
      var k :| 0 <= k < |t| && Reached(t, s, p, c, k) && s[k].st == M;
      if !Under(t, c, k) {
        assert Reached(t, s2, p, c + 1, k) && s2[k].st == M;
      }
    }
  }

  // ---------------------------------------------------------------- INVX takes ownership from exactly a subtree

  /** An owner becomes a sharer with the newest data; any other cache stays as it is. */
  ghost predicate DownTo(l: Line, l': Line, latest: int) {
    if Own(l.st) then
      && l' == l.(st := S, excl := l'.excl, ver := latest)
      && !IsExcl(l')
      && (l'.excl ==> l'.num <= 1)
    else l' == l
  }

  /** Exclusivity is inclusive: an owner's ancestors are owners. */
  lemma {:induction false} OwnAbove(t: Tree, s: Lines, a: int, k: int, latest: int)
    requires |s| == |t| && 0 <= a < |t| && 0 <= k < |t| && Under(t, a, k)
    requires GoodUnder(t, s, a, latest)
    requires Own(s[k].st)
    ensures Own(s[a].st)
    decreases k
  {
    if k != a {
      assert Good(t, s, t[k], latest);
      OwnAbove(t, s, a, t[k], latest);
    }
  }

  lemma {:induction false} InvalDowngrades(t: Tree, s: Lines, n: int, latest: int)
    requires |s| == |t| && 0 <= n < |t|
    requires GoodUnder(t, s, n, latest) && Own(s[n].st)
    ensures var (s', wb) := Inval(t, s, n, INVX);
      && (forall k | 0 <= k < |t| :: !Under(t, n, k) ==> s'[k] == s[k])
      && (forall k | 0 <= k < |t| && Under(t, n, k) :: DownTo(s[k], s'[k], latest))
      && (wb <==> HasM(t, s, n))
    decreases |t| - n, 1
  {
    assert Under(t, n, n) && Good(t, s, n, latest);
    var (s1, wb) := SendInvalidates(t, s, n, INVX);
    if IsExcl(s[n]) {
      var x := OnlySharer(t, s, n, latest);
      SendDowngrades(t, s, n, x, latest);
      forall k | 0 <= k < |t| && Under(t, n, k) && k != n ensures DownTo(s[k], s1[k], latest) {
        OnlyOwnerBelow(t, s, n, x, k, latest);
      }
      forall k | 0 <= k < |t| && Under(t, x, k) ensures Under(t, n, k) {
        TowardIsUnique(t, n, x, k);
      }
      FlagTellsMBelow(t, s, n, x, latest);
    } else {
      forall k | 0 <= k < |t| && Under(t, n, k) && k != n ensures !Own(s[k].st) {
        NoOwnerBelow(t, s, n, k, latest);
      }
      if s[n].ver != latest {
        StaleHasMBelow(t, s, n, latest);
      }
    }
  }

  /** INVX to the exclusive sharer x of p. */
  lemma {:induction false} SendDowngrades(t: Tree, s: Lines, p: int, x: int, latest: int)
    requires |s| == |t| && 0 <= p < x < |t| && t[x] == p
    requires IsExcl(s[p]) && s[p].sharers == {x}
    requires GoodUnder(t, s, x, latest) && Own(s[x].st)
    ensures var (s', wb) := SendInvalidates(t, s, p, INVX);
      && (forall k | 0 <= k < |t| && k != p :: !Under(t, x, k) ==> s'[k] == s[k])
      && (forall k | 0 <= k < |t| && Under(t, x, k) :: DownTo(s[k], s'[k], latest))
      && s'[p] == s[p].(excl := false, ver := if wb then latest else s[p].ver)
      && (wb <==> HasM(t, s, x))
    decreases |t| - p, 0
  {
    SkipToSharer(t, s, p, p + 1, x);
    InvalDowngrades(t, s, x, latest);
    var (s1, wb1) := Inval(t, s, x, INVX);
    assert !Under(t, x, p) && Under(t, x, x);
    var s2 := s1[p := if wb1 then s1[p].(ver := s1[x].ver) else s1[p]];
    SkipRest(t, s2, p, x + 1, x);
  }

  lemma {:induction false} SkipToSharer(t: Tree, s: Lines, p: int, c: int, x: int)
    requires |s| == |t| && 0 <= p < c <= x < |t|
    requires s[p].sharers == {x}
    ensures InvalChildren(t, s, p, INVX, c) == InvalChildren(t, s, p, INVX, x)
    decreases x - c
  {
    if c < x {
      SkipToSharer(t, s, p, c + 1, x);
    }
  }

  lemma {:induction false} SkipRest(t: Tree, s: Lines, p: int, c: int, x: int)
    requires |s| == |t| && 0 <= p < x < c <= |t|
    requires s[p].sharers == {x}
    ensures InvalChildren(t, s, p, INVX, c) == (s, false)
    decreases |t| - c
  {
    if c < |t| {
      SkipRest(t, s, p, c + 1, x);
    }
  }

  /** An exclusive directory entry names one child, which owns the line. */
  lemma OnlySharer(t: Tree, s: Lines, p: int, latest: int) returns (x: int)
    requires |s| == |t| && 0 <= p < |t|
    requires GoodUnder(t, s, p, latest) && IsExcl(s[p])
    ensures p < x < |t| && t[x] == p && s[p].sharers == {x} && Own(s[x].st)
    ensures GoodUnder(t, s, x, latest)
  {
    assert Under(t, p, p) && Good(t, s, p, latest);
    x := TheMember(s[p].sharers);
    GoodBelow(t, s, p, x, latest);
  }

  lemma NoOwnerBelow(t: Tree, s: Lines, p: int, k: int, latest: int)
    requires |s| == |t| && 0 <= p < k < |t| && Under(t, p, k)
    requires GoodUnder(t, s, p, latest) && !IsExcl(s[p])
    ensures !Own(s[k].st)
  {
    var d := Toward(t, p, k);
    assert Under(t, p, p) && Good(t, s, p, latest);
    GoodBelow(t, s, p, d, latest);
    if Own(s[k].st) {
      OwnAbove(t, s, d, k, latest);
    }
  }

  lemma OnlyOwnerBelow(t: Tree, s: Lines, p: int, x: int, k: int, latest: int)
    requires |s| == |t| && 0 <= p < k < |t| && Under(t, p, k)
    requires p < x < |t| && t[x] == p && s[p].sharers == {x}
    requires GoodUnder(t, s, p, latest)
    ensures Under(t, x, k) || Cleared(s[k])
  {
    var d := Toward(t, p, k);
    assert Under(t, p, p) && Good(t, s, p, latest);
    if d != x {
      GoodBelow(t, s, p, d, latest);
      InvalidBelow(t, s, d, k, latest);
    }
  }

  lemma FlagTellsMBelow(t: Tree, s: Lines, p: int, x: int, latest: int)
    requires |s| == |t| && 0 <= p < x < |t| && t[x] == p && s[p].sharers == {x}
    requires GoodUnder(t, s, p, latest)
    ensures HasM(t, s, p) <==> s[p].st == M || HasM(t, s, x)
    ensures s[p].st != I && s[p].ver != latest ==> HasM(t, s, x)
  {
    assert Under(t, p, p);
    if HasM(t, s, x) {
      var k :| 0 <= k < |t| && Under(t, x, k) && s[k].st == M;
      TowardIsUnique(t, p, x, k);
    }
    if HasM(t, s, p) && s[p].st != M {
      var k :| 0 <= k < |t| && Under(t, p, k) && s[k].st == M;
      OnlyOwnerBelow(t, s, p, x, k, latest);
    }
    if s[p].st != I && s[p].ver != latest {
      StaleHasMBelow(t, s, p, latest);
      var k :| p < k < |t| && Under(t, p, k) && s[k].st == M;
      OnlyOwnerBelow(t, s, p, x, k, latest);
    }
  }

  // ---------------------------------------------------------------- accesses, upwards

  /** MESIBottomCC::processWritebackOnAccess, run only when the top controller induced a writeback. */
  function Dirtied(l: Line, wb: bool): Line {
    if wb then l.(st := M) else l
  }

  /** The top controller of p serves a GET of its child c and hands c the line in state m. */
  function Give(s: Lines, p: int, c: int, m: MESIState): Lines
    requires 0 <= p < c < |s|
  {
    s[p := s[p].(sharers := s[p].sharers + {c}, num := s[p].num + 1, excl := m != S)]
     [c := s[c].(st := m, ver := s[p].ver)]
  }

  function GrantShared(t: Tree, s: Lines, p: int, c: int, noExcl: bool): (s': Lines)
    requires |s| == |t| && 0 <= p < c < |t|
    ensures |s'| == |t|
  {
    if s[p].num == 0 && Own(s[p].st) && !noExcl then
      Give(s, p, c, E)
    else
      var (s1, wb) := if IsExcl(s[p]) then SendInvalidates(t, s, p, INVX) else (s, false);
      Give(s1[p := Dirtied(s1[p], wb)], p, c, S)
  }

  function GrantExclusive(t: Tree, s: Lines, p: int, c: int): (s': Lines)
    requires |s| == |t| && 0 <= p < c < |t|
    ensures |s'| == |t|
  {
    var s0 := if c in s[p].sharers then s[p := s[p].(sharers := s[p].sharers - {c}, num := s[p].num - 1)] else s;
    var (s1, wb) := SendInvalidates(t, s0, p, INV);
    Give(s1[p := Dirtied(s1[p], wb)], p, c, M)
  }

  function Grant(t: Tree, s: Lines, p: int, c: int, ty: AccessType, noExcl: bool): (s': Lines)
    requires |s| == |t| && 0 <= p < c < |t|
    ensures |s'| == |t|
  {
    if ty == GETX then GrantExclusive(t, s, p, c) else GrantShared(t, s, p, c, noExcl)
  }

  /** A PUT of child c dies at its parent p: a dirty one makes p dirty. */
  function Put(s: Lines, p: int, c: int, ty: AccessType): Lines
    requires 0 <= p < c < |s|
  {
    var s1 := if ty == PUTX then s[p := s[p].(st := M, ver := s[c].ver)] else s;
    s1[p := s1[p].(sharers := s1[p].sharers - {c}, num := s1[p].num - 1)][c := s1[c].(st := I)]
  }

  // ---------------------------------------------------------------- the invariant is kept by a change below p

  lemma GoodFromChildren(t: Tree, s: Lines, p: int, latest: int)
    requires |s| == |t| && 0 <= p < |t|
    requires Good(t, s, p, latest)
    requires forall d | p < d < |t| && t[d] == p :: GoodUnder(t, s, d, latest)
    ensures GoodUnder(t, s, p, latest)
  {
    forall k | 0 <= k < |t| && Under(t, p, k) ensures Good(t, s, k, latest) {
      if k != p {
        var d := Toward(t, p, k);
        assert GoodUnder(t, s, d, latest);
      }
    }
  }

  /** What the parent of p relies on when only p's subtree changes. */
  ghost predicate SameFromAbove(l: Line, l': Line, latest: int) {
    && (l.st == I <==> l'.st == I)
    && (Own(l.st) <==> Own(l'.st))
    && (Own(l.st) && Ahead(l, latest) ==> Ahead(l', latest))
  }

  lemma InvFromSubtree(t: Tree, y: System, s': Lines, p: int)
    requires Inv(t, y) && |s'| == |t| && 0 <= p < |t|
    requires forall k | 0 <= k < |t| && !Under(t, p, k) :: s'[k] == y.lines[k]
    requires GoodUnder(t, s', p, y.latest)
    requires SameFromAbove(y.lines[p], s'[p], y.latest)
    ensures Inv(t, y.(lines := s'))
  {
    forall k | 0 <= k < |t| ensures Good(t, s', k, y.latest) {
      if !Under(t, p, k) {
        assert Good(t, y.lines, k, y.latest);
        GoodOutside(t, y.lines, s', p, k, y.latest);
      }
    }
    if p != 0 {
      assert !Under(t, p, 0);
    }
  }

  lemma GoodOutside(t: Tree, s: Lines, s': Lines, p: int, k: int, latest: int)
    requires |s| == |s'| == |t| && 0 <= p < |t| && 0 <= k < |t|
    requires Good(t, s, k, latest)
    requires !Under(t, p, k)
    requires forall k | 0 <= k < |t| && !Under(t, p, k) :: s'[k] == s[k]
    requires SameFromAbove(s[p], s'[p], latest)
    ensures Good(t, s', k, latest)
  {
    forall c | k < c < |t| && t[c] == k ensures c == p || s'[c] == s[c] {
      assert Under(t, p, c) ==> c == p;
    }
  }

  lemma GoodUnderAll(t: Tree, y: System, a: int)
    requires Inv(t, y) && 0 <= a < |t|
    ensures GoodUnder(t, y.lines, a, y.latest)
  {
    forall k | 0 <= k < |t| && Under(t, a, k) ensures Good(t, y.lines, k, y.latest) {
    }
  }

  lemma ClearedGood(t: Tree, s: Lines, a: int, latest: int)
    requires |s| == |t| && 0 <= a < |t|
    requires forall k | 0 <= k < |t| && Under(t, a, k) :: Cleared(s[k]) && s[k].ver <= latest
    ensures GoodUnder(t, s, a, latest)
  {
    forall k | 0 <= k < |t| && Under(t, a, k) ensures Good(t, s, k, latest) {
      forall c | k < c < |t| && t[c] == k ensures Cleared(s[c]) {
        assert Under(t, a, c);
      }
    }
  }

  lemma DowngradedGood(t: Tree, s: Lines, s': Lines, a: int, latest: int)
    requires |s| == |s'| == |t| && 0 <= a < |t|
    requires GoodUnder(t, s, a, latest)
    requires forall k | 0 <= k < |t| && Under(t, a, k) :: DownTo(s[k], s'[k], latest)
    ensures GoodUnder(t, s', a, latest)
  {
    forall k | 0 <= k < |t| && Under(t, a, k) ensures Good(t, s', k, latest) {
      assert Good(t, s, k, latest);
      forall c | k < c < |t| && t[c] == k ensures DownTo(s[c], s'[c], latest) {
        assert Under(t, a, c);
      }
    }
  }

  // ---------------------------------------------------------------- each controller action keeps the invariant

  /** All that an invalidation or downgrade from above can do to a cache. */
  predicate Decays(l: Line, l': Line) {
    && (l'.st == l.st || l'.st == I || (Own(l.st) && l'.st == S))
    && (l.sharers == {} ==> l'.sharers == {})
  }

  /** What a grant to c leaves alone: everything outside p's subtree, and everything strictly below c.
      Other caches can only lose permissions.
   */
  ghost predicate GrantFrame(t: Tree, s: Lines, s': Lines, p: int, c: int)
    requires |s| == |s'| == |t| && 0 <= p < |t| && 0 <= c < |t|
  {
    && (forall k | 0 <= k < |t| && !Under(t, p, k) :: s'[k] == s[k])
    && (forall k | 0 <= k < |t| && Under(t, c, k) && k != c :: s'[k] == s[k])
    && s'[c] == s[c].(st := s'[c].st, ver := s'[c].ver)
    && (Own(s'[p].st) <==> Own(s[p].st)) && s'[p].st != I
    && (forall k | 0 <= k < |t| && k != p && k != c :: Decays(s[k], s'[k]))
  }

  /** No child of p but c holds the line. */
  ghost predicate Alone(t: Tree, s: Lines, p: int, c: int)
    requires |s| == |t| && 0 <= p
  {
    forall d | p < d < |t| && t[d] == p && d != c :: s[d].st == I
  }

  /** What a GETS gives: E exactly if the parent owns the line, no other child holds it, and exclusivity has not been
      ruled out; else S. All other caches keep what they hold, and p is dirty afterwards exactly if p or a cache
      below it was.
   */
  ghost predicate SharedOutcome(t: Tree, s: Lines, s': Lines, p: int, c: int, noExcl: bool)
    requires |s| == |s'| == |t| && 0 <= p < |t| && 0 <= c < |t|
  {
    && s'[c].st == (if !noExcl && Own(s[p].st) && Alone(t, s, p, c) then E else S)
    && (forall k | 0 <= k < |t| && k != c :: s'[k].st == I <==> s[k].st == I)
    && (s'[p].st == M <==> HasM(t, s, p))
  }

  lemma GrantSharedKeeps(t: Tree, y: System, p: int, c: int, noExcl: bool)
    requires Inv(t, y) && 0 <= p < c < |t| && t[c] == p
    requires y.lines[c].st == I && y.lines[p].st != I
    ensures var s' := GrantShared(t, y.lines, p, c, noExcl);
      && Inv(t, y.(lines := s'))
      && GrantFrame(t, y.lines, s', p, c)
      && SharedOutcome(t, y.lines, s', p, c, noExcl)
      && s'[c].ver == y.latest
  {
    SharedExactly(t, y, p, c, noExcl);
    if IsExcl(y.lines[p]) {
      GrantByDowngradeKeeps(t, y, p, c);
    } else {
      assert y.lines[p := y.lines[p]] == y.lines;
      GrantWithoutOwnerKeeps(t, y, p, c, if y.lines[p].num == 0 && Own(y.lines[p].st) && !noExcl then E else S);
    }
  }

  lemma SharedExactly(t: Tree, y: System, p: int, c: int, noExcl: bool)
    requires Inv(t, y) && 0 <= p < c < |t| && t[c] == p
    requires y.lines[c].st == I && y.lines[p].st != I
    ensures SharedOutcome(t, y.lines, GrantShared(t, y.lines, p, c, noExcl), p, c, noExcl)
  {
    var s, latest := y.lines, y.latest;
    GoodUnderAll(t, y, p);
    assert Good(t, s, p, latest);
    NoSharers(t, s, p, c, latest);
    if IsExcl(s[p]) {
      DowngradeOutcome(t, s, p, c, noExcl, latest);
    } else {
      CleanWithoutOwner(t, s, p, latest);
    }
  }

  lemma DowngradeOutcome(t: Tree, s: Lines, p: int, c: int, noExcl: bool, latest: int)
    requires |s| == |t| && 0 <= p < c < |t| && t[c] == p && s[c].st == I
    requires GoodUnder(t, s, p, latest) && IsExcl(s[p]) && s[p].num != 0 && !Alone(t, s, p, c)
    ensures SharedOutcome(t, s, GrantShared(t, s, p, c, noExcl), p, c, noExcl)
  {
    var x := OnlySharer(t, s, p, latest);
    SendDowngrades(t, s, p, x, latest);
    FlagTellsMBelow(t, s, p, x, latest);
    assert Under(t, x, x);
    assert Under(t, p, p) && Good(t, s, p, latest);
  }

  /** The directory counts no sharer exactly if no other child holds the line. */
  lemma NoSharers(t: Tree, s: Lines, p: int, c: int, latest: int)
    requires |s| == |t| && 0 <= p < c < |t| && t[c] == p && Good(t, s, p, latest) && s[c].st == I
    ensures s[p].num == 0 <==> Alone(t, s, p, c)
  {
    if Alone(t, s, p, c) {
      forall d ensures d !in s[p].sharers {
      }
      assert s[p].sharers == {};
    } else {
      var d :| p < d < |t| && t[d] == p && d != c && s[d].st != I;
      assert d in s[p].sharers;
      assert |s[p].sharers - {d}| == |s[p].sharers| - 1;
    }
  }

  lemma CleanWithoutOwner(t: Tree, s: Lines, p: int, latest: int)
    requires |s| == |t| && 0 <= p < |t| && GoodUnder(t, s, p, latest) && !IsExcl(s[p])
    ensures HasM(t, s, p) <==> s[p].st == M
  {
    assert Under(t, p, p);
    if HasM(t, s, p) && s[p].st != M {
      var k :| 0 <= k < |t| && Under(t, p, k) && s[k].st == M;
      NoOwnerBelow(t, s, p, k, latest);
    }
  }

  lemma GrantWithoutOwnerKeeps(t: Tree, y: System, p: int, c: int, m: MESIState)
    requires Inv(t, y) && 0 <= p < c < |t| && t[c] == p
    requires y.lines[c].st == I && y.lines[p].st != I && !IsExcl(y.lines[p])
    requires m == S || (m == E && y.lines[p].num == 0 && Own(y.lines[p].st))
    ensures var s' := Give(y.lines, p, c, m);
      && Inv(t, y.(lines := s'))
      && GrantFrame(t, y.lines, s', p, c)
      && s'[c].st == m && s'[c].ver == y.latest
  {
    var s, latest := y.lines, y.latest;
    var s' := Give(s, p, c, m);
    GoodUnderAll(t, y, p);
    assert Good(t, s, p, latest);
    assert Under(t, p, p) && Under(t, p, c);
    GrantedBelow(t, s, s', p, c, p, latest);
    assert Good(t, s', p, latest);
    GoodFromChildren(t, s', p, latest);
    InvFromSubtree(t, y, s', p);
  }

  lemma GrantByDowngradeKeeps(t: Tree, y: System, p: int, c: int)
    requires Inv(t, y) && 0 <= p < c < |t| && t[c] == p
    requires y.lines[c].st == I && IsExcl(y.lines[p])
    ensures var (s1, wb) := SendInvalidates(t, y.lines, p, INVX);
      var s' := Give(s1[p := Dirtied(s1[p], wb)], p, c, S);
      && Inv(t, y.(lines := s'))
      && GrantFrame(t, y.lines, s', p, c)
      && s'[c].st == S && s'[c].ver == y.latest
  {
    var s, latest := y.lines, y.latest;
    GoodUnderAll(t, y, p);
    assert Under(t, p, p);
    var x := OnlySharer(t, s, p, latest);
    SendDowngrades(t, s, p, x, latest);
    FlagTellsMBelow(t, s, p, x, latest);
    assert Good(t, s, p, latest);
    var (s1, wb) := SendInvalidates(t, s, p, INVX);
    var s' := Give(s1[p := Dirtied(s1[p], wb)], p, c, S);
    DowngradeSubtree(t, s, s1, s', p, c, x, wb, latest);
    InvFromSubtree(t, y, s', p);
  }

  lemma DowngradeSubtree(t: Tree, s: Lines, s1: Lines, s': Lines, p: int, c: int, x: int, wb: bool, latest: int)
    requires |s| == |s1| == |s'| == |t| && 0 <= p < c < |t| && t[c] == p
    requires p < x < |t| && t[x] == p && s[p].sharers == {x} && IsExcl(s[p]) && Own(s[p].st)
    requires GoodUnder(t, s, p, latest) && s[c].st == I
    requires forall k | 0 <= k < |t| && k != p :: !Under(t, x, k) ==> s1[k] == s[k]
    requires forall k | 0 <= k < |t| && Under(t, x, k) :: DownTo(s[k], s1[k], latest)
    requires s1[p] == s[p].(excl := false, ver := if wb then latest else s[p].ver)
    requires s[p].ver != latest ==> wb
    requires s' == Give(s1[p := Dirtied(s1[p], wb)], p, c, S)
    ensures GoodUnder(t, s', p, latest) && GrantFrame(t, s, s', p, c)
    ensures s'[c].st == S && s'[c].ver == latest
    ensures SameFromAbove(s[p], s'[p], latest)
  {
    assert Under(t, p, p) && Under(t, p, c) && Under(t, c, c) && Under(t, x, x);
    assert Good(t, s, p, latest);
    forall k | 0 <= k < |t| && Under(t, x, k) ensures Under(t, p, k) && k != p && !Under(t, c, k) {
      TowardIsUnique(t, p, x, k);
      SiblingsDisjoint(t, x, c, k);
    }
    GrantedBelow(t, s, s', p, c, x, latest);
    DowngradedParentGood(t, s, s', p, c, x, latest);
    GoodFromChildren(t, s', p, latest);
  }

  lemma DowngradedParentGood(t: Tree, s: Lines, s': Lines, p: int, c: int, x: int, latest: int)
    requires |s| == |s'| == |t| && 0 <= p < c < |t| && t[c] == p
    requires p < x < |t| && t[x] == p && x != c && s[p].sharers == {x}
    requires Good(t, s, p, latest) && IsExcl(s[p]) && s[c].st == I
    requires s'[p].sharers == {x} + {c} && s'[p].num == 2 && !s'[p].excl && s'[p].ver == latest && s'[p].st != I
    requires s'[c].st == S && DownTo(s[x], s'[x], latest)
    requires forall d | p < d < |t| && t[d] == p && d != c && d != x :: s'[d] == s[d]
    ensures Good(t, s', p, latest)
  {
    assert |{x} + {c}| == 2;
  }

  /** After a shared grant every child of p heads a good subtree. */
  lemma GrantedBelow(t: Tree, s: Lines, s': Lines, p: int, c: int, x: int, latest: int)
    requires |s| == |s'| == |t| && 0 <= p < c < |t| && t[c] == p
    requires x == p || (p < x < |t| && t[x] == p && x != c)
    requires GoodUnder(t, s, p, latest) && s[c].st == I
    requires s'[c] == s[c].(st := s'[c].st, ver := latest) && s'[c].st != I
    requires forall k | 0 <= k < |t| && k != p && k != c :: x == p || !Under(t, x, k) ==> s'[k] == s[k]
    requires x != p ==> forall k | 0 <= k < |t| && Under(t, x, k) :: DownTo(s[k], s'[k], latest)
    ensures forall d | p < d < |t| && t[d] == p :: GoodUnder(t, s', d, latest)
  {
    forall d | p < d < |t| && t[d] == p ensures GoodUnder(t, s', d, latest) {
      GoodBelow(t, s, p, d, latest);
      if d == x {
        DowngradedGood(t, s, s', x, latest);
      } else {
        forall k | 0 <= k < |t| && Under(t, d, k) && k != c ensures s'[k] == s[k] {
          if x != p { SiblingsDisjoint(t, d, x, k); }
        }
        if d == c {
          GrantedChildGood(t, s, s', c, latest);
        } else {
          forall k | 0 <= k < |t| && Under(t, d, k) ensures k != c {
            SiblingsDisjoint(t, d, c, k);
            assert Under(t, c, c);
          }
          GoodFrame(t, s, s', d, latest);
        }
      }
    }
  }

  lemma GrantedChildGood(t: Tree, s: Lines, s': Lines, c: int, latest: int)
    requires |s| == |s'| == |t| && 0 <= c < |t|
    requires GoodUnder(t, s, c, latest) && !Own(s[c].st)
    requires s'[c] == s[c].(st := s'[c].st, ver := latest) && s'[c].st != I
    requires forall k | 0 <= k < |t| && Under(t, c, k) && k != c :: s'[k] == s[k]
    ensures GoodUnder(t, s', c, latest)
  {
    assert Under(t, c, c) && Good(t, s, c, latest);
    forall d | c < d < |t| && t[d] == c ensures s'[d] == s[d] && GoodUnder(t, s', d, latest) {
      assert Under(t, c, d);
      GoodBelow(t, s, c, d, latest);
      forall k | 0 <= k < |t| && Under(t, d, k) ensures s'[k] == s[k] {
        TowardIsUnique(t, c, d, k);
      }
      GoodFrame(t, s, s', d, latest);
    }
    GoodFromChildren(t, s', c, latest);
  }

  lemma GrantExclusiveKeeps(t: Tree, y: System, p: int, c: int)
    requires Inv(t, y) && 0 <= p < c < |t| && t[c] == p
    requires !Own(y.lines[c].st) && Own(y.lines[p].st)
    ensures var s' := GrantExclusive(t, y.lines, p, c);
      && Inv(t, y.(lines := s'))
      && GrantFrame(t, y.lines, s', p, c)
      && s'[c].st == M && s'[c].ver == y.latest
      && Alone(t, s', p, c) && s'[p].st == if HasM(t, y.lines, p) then M else y.lines[p].st
  {
    var s, latest := y.lines, y.latest;
    GoodUnderAll(t, y, p);
    assert Good(t, s, p, latest);
    assert Under(t, p, p) && Under(t, p, c);
    var s0 := if c in s[p].sharers then s[p := s[p].(sharers := s[p].sharers - {c}, num := s[p].num - 1)] else s;
    OtherSharersGood(t, s, s0, p, c, latest);
    SendClears(t, s0, p, latest);
    var (s1, wb) := SendInvalidates(t, s0, p, INV);
    var s' := Give(s1[p := Dirtied(s1[p], wb)], p, c, M);
    assert s' == GrantExclusive(t, s, p, c);
    ExclusiveFlag(t, s, s0, s1, p, c, wb, latest);
    ExclusiveSubtree(t, s, s0, s1, s', p, c, wb, latest);
    InvFromSubtree(t, y, s', p);
  }

  lemma ExclusiveSubtree(t: Tree, s: Lines, s0: Lines, s1: Lines, s': Lines, p: int, c: int, wb: bool, latest: int)
    requires |s| == |s0| == |s1| == |s'| == |t| && 0 <= p < c < |t| && t[c] == p
    requires GoodUnder(t, s, p, latest) && !Own(s[c].st) && Own(s[p].st)
    requires s0 == s[p := s0[p]] && s0[p].sharers == s[p].sharers - {c}
      && s0[p] == s[p].(sharers := s0[p].sharers, num := s0[p].num)
    requires ClearsBelow(t, s0, s1, p, p + 1, wb, latest)
    requires s1[p] == s0[p].(sharers := {}, num := 0, ver := if wb then latest else s0[p].ver)
    requires s' == Give(s1[p := Dirtied(s1[p], wb)], p, c, M)
    ensures GoodUnder(t, s', p, latest)
    ensures GrantFrame(t, s, s', p, c)
    ensures s'[c].st == M && s'[c].ver == latest
    ensures SameFromAbove(s[p], s'[p], latest) && Alone(t, s', p, c)
  {
    assert Under(t, p, p) && Under(t, p, c);
    StaleTellsWriteback(t, s, s0, s1, p, c, wb, latest);
    forall k | 0 <= k < |t| && Under(t, c, k) ensures k != p && !Reached(t, s0, p, p + 1, k) {
      TowardIsUnique(t, p, c, k);
    }
    assert Under(t, c, c);
    forall d | p < d < |t| && t[d] == p ensures GoodUnder(t, s', d, latest) && (d != c ==> s'[d].st == I) {
      if d == c {
        GoodBelow(t, s, p, c, latest);
        GrantedChildGood(t, s, s', c, latest);
      } else {
        OtherChildCleared(t, s, s0, s1, s', p, c, d, wb, latest);
      }
    }
    assert Good(t, s', p, latest) by {
      assert s'[p].sharers == {c};
    }
    GoodFromChildren(t, s', p, latest);
  }

  lemma OtherSharersGood(t: Tree, s: Lines, s0: Lines, p: int, c: int, latest: int)
    requires |s| == |s0| == |t| && 0 <= p < c < |t| && t[c] == p
    requires GoodUnder(t, s, p, latest)
    requires s0 == s[p := s0[p]] && s0[p].sharers == s[p].sharers - {c}
    ensures SharersGood(t, s0, p, p + 1, latest)
  {
    assert Under(t, p, p) && Good(t, s, p, latest);
    forall d | d in s0[p].sharers ensures s0[d].st != I && GoodUnder(t, s0, d, latest) {
      GoodBelow(t, s, p, d, latest);
      GoodFrame(t, s, s0, d, latest);
    }
  }

  /** A GETX leaves every other child of p invalid. */
  lemma OtherChildCleared(t: Tree, s: Lines, s0: Lines, s1: Lines, s': Lines, p: int, c: int, d: int, wb: bool,
                          latest: int)
    requires |s| == |s0| == |s1| == |s'| == |t| && 0 <= p < c < |t| && t[c] == p
    requires p < d < |t| && t[d] == p && d != c
    requires GoodUnder(t, s, p, latest)
    requires s0 == s[p := s0[p]] && s0[p].sharers == s[p].sharers - {c}
    requires ClearsBelow(t, s0, s1, p, p + 1, wb, latest)
    requires forall k | 0 <= k < |t| && k != p && k != c :: s'[k] == s1[k]
    ensures GoodUnder(t, s', d, latest) && s'[d].st == I
  {
    GoodBelow(t, s, p, d, latest);
    assert Under(t, p, p) && Good(t, s, p, latest);
    assert Under(t, d, d);
    forall k | 0 <= k < |t| && Under(t, d, k)
      ensures k != c && k != p && (d in s0[p].sharers <==> Reached(t, s0, p, p + 1, k))
    {
      TowardIsUnique(t, p, d, k);
      SiblingsDisjoint(t, d, c, k);
    }
    if d in s0[p].sharers {
      ClearedGood(t, s', d, latest);
    } else {
      GoodFrame(t, s, s', d, latest);
    }
  }

  /** If p is behind, the invalidations sent for another child's GETX bring the newest data back. */
  lemma StaleTellsWriteback(t: Tree, s: Lines, s0: Lines, s1: Lines, p: int, c: int, wb: bool, latest: int)
    requires |s| == |s0| == |s1| == |t| && 0 <= p < c < |t| && t[c] == p
    requires GoodUnder(t, s, p, latest) && !Own(s[c].st) && s[p].st != I
    requires s0 == s[p := s0[p]] && s0[p].sharers == s[p].sharers - {c}
    requires ClearsBelow(t, s0, s1, p, p + 1, wb, latest)
    ensures s[p].ver != latest ==> wb
  {
    if s[p].ver != latest {
      assert Under(t, p, p) && Good(t, s, p, latest);
      var x :| x in s[p].sharers && p < x < |t| && Own(s[x].st) && Ahead(s[x], latest);
      GoodBelow(t, s, p, x, latest);
      var k := x;
      assert Under(t, x, x);
      if s[x].st != M {
        StaleHasMBelow(t, s, x, latest);
        k :| x < k < |t| && Under(t, x, k) && s[k].st == M;
      }
      TowardIsUnique(t, p, x, k);
      assert Reached(t, s0, p, p + 1, k) && s0[k].st == M;
    }
  }

  /** The invalidations for a GETX report a writeback, or p is dirty already, exactly if p or a cache below it is. */
  lemma ExclusiveFlag(t: Tree, s: Lines, s0: Lines, s1: Lines, p: int, c: int, wb: bool, latest: int)
    requires |s| == |s0| == |s1| == |t| && 0 <= p < c < |t| && t[c] == p
    requires GoodUnder(t, s, p, latest) && !Own(s[c].st)
    requires s0 == s[p := s0[p]] && s0[p].sharers == s[p].sharers - {c}
    requires ClearsBelow(t, s0, s1, p, p + 1, wb, latest)
    ensures wb || s[p].st == M <==> HasM(t, s, p)
  {
    assert Under(t, p, p);
    if HasM(t, s, p) && s[p].st != M {
      var k :| 0 <= k < |t| && Under(t, p, k) && s[k].st == M;
      NotReachedIsInvalid(t, s, p, k, latest);
      if Toward(t, p, k) == c {
        GoodBelow(t, s, p, c, latest);
        OwnAbove(t, s, c, k, latest);
      }
      assert Reached(t, s0, p, p + 1, k);
    }
  }

  /** The top half of an eviction: the subtree below n is invalidated, and a writeback makes n dirty. */
  function Vacate(t: Tree, s: Lines, n: int): (s': Lines)
    requires |s| == |t| && 0 <= n < |t|
    ensures |s'| == |t|
  {
    var (s1, wb) := SendInvalidates(t, s, n, INV);
    s1[n := Dirtied(s1[n], wb)]
  }

  lemma VacateKeeps(t: Tree, y: System, n: int)
    requires Inv(t, y) && 0 <= n < |t|
    ensures var s' := Vacate(t, y.lines, n);
      && Inv(t, y.(lines := s'))
      && (forall k | 0 <= k < |t| && !Under(t, n, k) :: s'[k] == y.lines[k])
      && (forall k | 0 <= k < |t| && k != n :: Decays(y.lines[k], s'[k]))
      && s'[n].sharers == {}
      && (s'[n].st == I <==> y.lines[n].st == I)
      && (s'[n].st == y.lines[n].st || (y.lines[n].st == E && s'[n].st == M))
      && (s'[n].st == M <==> HasM(t, y.lines, n))
      && (s'[n].st != I ==> s'[n].ver == y.latest)
  {
    var s, latest := y.lines, y.latest;
    var s' := Vacate(t, s, n);
    GoodUnderAll(t, y, n);
    assert Under(t, n, n) && Good(t, s, n, latest);
    if s[n].st == I {
      assert s[n].sharers == {};
      assert s' == s;
      CleanWithoutOwner(t, s, n, latest);
    } else {
      forall d | d in s[n].sharers ensures GoodUnder(t, s, d, latest) {
        GoodBelow(t, s, n, d, latest);
      }
      SendClears(t, s, n, latest);
      var (s1, wb) := SendInvalidates(t, s, n, INV);
      SubtreeCleared(t, s, s1, n, wb, latest);
      FlagTellsM(t, s, s1, n, wb, latest);
      OwnerAboveM(t, s, s1, n, wb, latest);
      forall k | 0 <= k < |t| && Under(t, n, k) ensures Good(t, s', k, latest) {
        forall c | k < c < |t| && t[c] == k ensures Cleared(s'[c]) {
          assert Under(t, n, c);
        }
      }
      InvFromSubtree(t, y, s', n);
    }
  }

  /** A writeback only comes back to a cache that owns the line. */
  lemma OwnerAboveM(t: Tree, s: Lines, s1: Lines, n: int, wb: bool, latest: int)
    requires |s| == |s1| == |t| && 0 <= n < |t|
    requires GoodUnder(t, s, n, latest)
    requires ClearsBelow(t, s, s1, n, n + 1, wb, latest)
    ensures wb ==> Own(s[n].st)
  {
    if wb {
      var k :| 0 <= k < |t| && Reached(t, s, n, n + 1, k) && s[k].st == M;
      OwnAbove(t, s, n, k, latest);
    }
  }

  lemma PutKeeps(t: Tree, y: System, p: int, c: int)
    requires Inv(t, y) && 0 <= p < c < |t| && t[c] == p
    requires y.lines[c].st != I && y.lines[c].sharers == {}
    ensures var s' := Put(y.lines, p, c, if y.lines[c].st == M then PUTX else PUTS);
      && Inv(t, y.(lines := s'))
      && (forall k | 0 <= k < |t| && k != p && k != c :: s'[k] == y.lines[k])
      && s'[c] == y.lines[c].(st := I)
      && (y.lines[c].st == M ==> s'[p].ver == y.latest)
      && s'[p].st == (if y.lines[c].st == M then M else y.lines[p].st)
  {
    var s, latest := y.lines, y.latest;
    var s' := Put(s, p, c, if s[c].st == M then PUTX else PUTS);
    GoodUnderAll(t, y, p);
    assert Under(t, p, p) && Under(t, p, c) && Under(t, c, c);
    assert Good(t, s, p, latest) && Good(t, s, c, latest);
    forall d | p < d < |t| && t[d] == p ensures GoodUnder(t, s', d, latest) && (d != c ==> s'[d] == s[d]) {
      GoodBelow(t, s, p, d, latest);
      if d == c {
        forall k | 0 <= k < |t| && Under(t, c, k) && k != c ensures Cleared(s[k]) && s[k].ver <= latest {
          NotReachedIsInvalid(t, s, c, k, latest);
        }
        ClearedGood(t, s', c, latest);
      } else {
        forall k | 0 <= k < |t| && Under(t, d, k) ensures k != c && k != p {
          SiblingsDisjoint(t, d, c, k);
        }
        GoodFrame(t, s, s', d, latest);
      }
    }
    PutParentGood(t, s, s', p, c, latest);
    GoodFromChildren(t, s', p, latest);
    InvFromSubtree(t, y, s', p);
  }

  lemma PutParentGood(t: Tree, s: Lines, s': Lines, p: int, c: int, latest: int)
    requires |s| == |s'| == |t| && 0 <= p < c < |t| && t[c] == p
    requires Good(t, s, p, latest) && Good(t, s, c, latest)
    requires s[c].st != I && s[c].sharers == {}
    requires s' == Put(s, p, c, if s[c].st == M then PUTX else PUTS)
    ensures Good(t, s', p, latest)
  {
    assert s[p].sharers == s'[p].sharers + {c};
    if IsExcl(s[p]) {
      var x := TheMember(s[p].sharers);
      assert x == c;
      assert s'[p].sharers == {};
    }
  }
}
