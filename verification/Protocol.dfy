/** Whole accesses and evictions of the line, each run to completion, and what holds in every state
    that any sequence of them reaches.
 */
module Protocol {
  import opened Topology
  import opened Coherence

  /** A cache without children is a terminal one: the only kind a core talks to. */
  predicate Terminal(t: Tree, n: int) {
    0 <= n < |t| && n !in t
  }

  /** The memory's answer to a GET of the last-level cache. */
  function MemGive(l: Line, mem: int, ty: AccessType, noExcl: bool): Line {
    l.(st := if ty == GETX then M else if noExcl then S else E, ver := mem)
  }

  /** MESIBottomCC::processAccess on a GET at p, with the access at the parent it may lead to. */
  function Fetch(t: Tree, y: System, p: int, ty: AccessType, noExcl: bool): (y': System)
    requires |y.lines| == |t| && 0 <= p < |t|
    ensures |y'.lines| == |t|
    decreases p
  {
    var l := y.lines[p];
    if ty != GETX && l.st != I then y
    else if ty == GETX && Own(l.st) then y.(lines := y.lines[p := l.(st := M)])
    else if p == 0 then y.(lines := y.lines[0 := MemGive(l, y.mem, ty, noExcl)])
    else
      var y1 := Fetch(t, y, t[p], ty, noExcl);
      y1.(lines := Grant(t, y1.lines, t[p], p, ty, noExcl))
  }

  /** A core's store: the terminal cache obtains M, and the newest version is then there. */
  function Store(t: Tree, y: System, n: int): (y': System)
    requires |y.lines| == |t| && 0 <= n < |t|
    ensures |y'.lines| == |t|
  {
    var y1 := Fetch(t, y, n, GETX, false);
    Write(y1, n)
  }

  function Write(y: System, n: int): System
    requires 0 <= n < |y.lines|
  {
    y.(lines := y.lines[n := y.lines[n].(ver := y.latest + 1)], latest := y.latest + 1)
  }

  /** The PUT of a vacated cache n: nothing, a clean PUTS or a dirty PUTX, to the parent or to memory. */
  function PutUp(t: Tree, y: System, n: int): (y': System)
    requires |y.lines| == |t| && 0 <= n < |t|
    ensures |y'.lines| == |t|
  {
    var l := y.lines[n];
    if l.st == I then y
    else if n == 0 then
      y.(lines := y.lines[0 := l.(st := I)], mem := if l.st == M then l.ver else y.mem)
    else
      y.(lines := Put(y.lines, t[n], n, if l.st == M then PUTX else PUTS))
  }

  /** MESICC::processEviction. */
  function Evict(t: Tree, y: System, n: int): (y': System)
    requires |y.lines| == |t| && 0 <= n < |t|
    ensures |y'.lines| == |t|
  {
    PutUp(t, y.(lines := Vacate(t, y.lines, n)), n)
  }

  // ---------------------------------------------------------------- one operation

  lemma MemGiveKeeps(t: Tree, y: System, ty: AccessType, noExcl: bool)
    requires Inv(t, y) && !Own(y.lines[0].st)
    requires ty == GETX || y.lines[0].st == I
    ensures var s' := y.lines[0 := MemGive(y.lines[0], y.mem, ty, noExcl)];
      && Inv(t, y.(lines := s'))
      && (ty == GETX <==> s'[0].st == M)
      && (s'[0].st == E <==> ty != GETX && !noExcl)
      && s'[0].st != I
  {
    var s' := y.lines[0 := MemGive(y.lines[0], y.mem, ty, noExcl)];
    GoodUnderAll(t, y, 0);
    assert Good(t, y.lines, 0, y.latest);
    GrantedChildGood(t, y.lines, s', 0, y.latest);
    forall k | 0 <= k < |t| ensures Good(t, s', k, y.latest) {
      UnderRoot(t, k);
    }
  }

  lemma {:induction false} UnderRoot(t: Tree, k: int)
    requires 0 <= k < |t|
    ensures Under(t, 0, k)
    decreases k
  {
    if k != 0 {
      UnderRoot(t, t[k]);
    }
  }

  /** A GETS of p may end in E: from memory, or from a parent that owns the line and has no other child holding it. */
  ghost predicate Sole(t: Tree, s: Lines, p: int, noExcl: bool)
    requires |s| == |t| && 0 <= p < |t|
  {
    !noExcl && (p > 0 ==> Own(s[t[p]].st) && Alone(t, s, t[p], p))
  }

  /** An access leaves the requester in a good state and touches no cache below it. A GETS that misses ends in E
      exactly if it may, as the state afterwards shows; else in S; and it takes the line from nobody. */
  lemma {:induction false} FetchKeeps(t: Tree, y: System, p: int, ty: AccessType, noExcl: bool)
    requires Inv(t, y) && 0 <= p < |t|
    ensures var y' := Fetch(t, y, p, ty, noExcl);
      && Inv(t, y')
      && y' == y.(lines := y'.lines)
      && (forall k | 0 <= k < |t| && Under(t, p, k) && k != p :: y'.lines[k] == y.lines[k])
      && y'.lines[p] == y.lines[p].(st := y'.lines[p].st, ver := y'.lines[p].ver)
      && (if ty == GETX then y'.lines[p].st == M else y'.lines[p].st != I)
      && (ty != GETX && y.lines[p].st != I ==> y' == y)
      && (ty != GETX && y.lines[p].st == I ==> y'.lines[p].st == if Sole(t, y'.lines, p, noExcl) then E else S)
      && (ty != GETX ==> forall k | 0 <= k < |t| && y.lines[k].st != I :: y'.lines[k].st != I)
    decreases p
  {
    var l := y.lines[p];
    assert Good(t, y.lines, p, y.latest);
    if ty != GETX && l.st != I {
    } else if ty == GETX && Own(l.st) {
      UpgradeKeeps(t, y, p);
    } else if p == 0 {
      MemGiveKeeps(t, y, ty, noExcl);
    } else {
      var q := t[p];
      FetchKeeps(t, y, q, ty, noExcl);
      var y1 := Fetch(t, y, q, ty, noExcl);
      assert Under(t, q, p);
      assert y1.lines[p] == y.lines[p];
      if ty == GETX {
        GrantExclusiveKeeps(t, y1, q, p);
      } else {
        GrantSharedKeeps(t, y1, q, p, noExcl);
      }
      forall k | 0 <= k < |t| && Under(t, p, k) ensures Under(t, q, k) && k != q {
        TowardIsUnique(t, q, p, k);
      }
    }
  }

  /** The silent E to M transition. */
  lemma UpgradeKeeps(t: Tree, y: System, p: int)
    requires Inv(t, y) && 0 <= p < |t| && Own(y.lines[p].st)
    ensures Inv(t, y.(lines := y.lines[p := y.lines[p].(st := M)]))
  {
    var s' := y.lines[p := y.lines[p].(st := M)];
    GoodUnderAll(t, y, p);
    assert Under(t, p, p) && Good(t, y.lines, p, y.latest);
    forall d | p < d < |t| && t[d] == p ensures GoodUnder(t, s', d, y.latest) {
      GoodBelow(t, y.lines, p, d, y.latest);
      GoodFrame(t, y.lines, s', d, y.latest);
    }
    GoodFromChildren(t, s', p, y.latest);
    InvFromSubtree(t, y, s', p);
  }

  /** Dirty data goes up, to the parent or to memory, and nothing else becomes dirty: the parent is dirty exactly if
      it was or a cache of the evicted subtree was, and memory is written exactly if one was. */
  lemma EvictKeeps(t: Tree, y: System, n: int)
    requires Inv(t, y) && 0 <= n < |t|
    ensures var y' := Evict(t, y, n);
      && Inv(t, y') && y'.lines[n].st == I && y'.latest == y.latest
      && (n > 0 ==> y'.mem == y.mem && (y'.lines[t[n]].st == M <==> y.lines[t[n]].st == M || HasM(t, y.lines, n)))
      && (n == 0 ==> y'.mem == if HasM(t, y.lines, 0) then y.latest else y.mem)
  {
    VacateKeeps(t, y, n);
    PutUpKeeps(t, y.(lines := Vacate(t, y.lines, n)), n);
  }

  lemma PutUpKeeps(t: Tree, y: System, n: int)
    requires Inv(t, y) && 0 <= n < |t| && y.lines[n].sharers == {}
    ensures var y' := PutUp(t, y, n);
      && Inv(t, y') && y'.latest == y.latest
      && y'.lines[n] == y.lines[n].(st := I)
      && (n > 0 ==> y'.mem == y.mem && y'.lines[t[n]].st == if y.lines[n].st == M then M else y.lines[t[n]].st)
      && (n == 0 ==> y'.mem == if y.lines[0].st == M then y.lines[0].ver else y.mem)
  {
    if y.lines[n].st != I {
      if n == 0 {
        RootPutKeeps(t, y);
      } else {
        PutKeeps(t, y, t[n], n);
      }
    }
  }

  lemma RootPutKeeps(t: Tree, y: System)
    requires Inv(t, y) && y.lines[0].sharers == {} && y.lines[0].st != I
    ensures Inv(t, PutUp(t, y, 0))
  {
    var s' := y.lines[0 := y.lines[0].(st := I)];
    GoodUnderAll(t, y, 0);
    assert Good(t, y.lines, 0, y.latest);
    forall k | 0 <= k < |t| ensures Good(t, s', k, y.latest) {
      UnderRoot(t, k);
      if k != 0 {
        NotReachedIsInvalid(t, y.lines, 0, k, y.latest);
      }
      forall d | k < d < |t| && t[d] == k ensures Cleared(s'[d]) {
        UnderRoot(t, d);
        NotReachedIsInvalid(t, y.lines, 0, d, y.latest);
      }
    }
  }

  // ---------------------------------------------------------------- single writer

  /** Ownership of the line excludes every cache off the owner's path: an owner and any other cache that
      holds the line lie on one path from the last-level cache down.
   */
  lemma {:induction false} SingleWriter(t: Tree, y: System, c: int, d: int)
    requires Inv(t, y) && 0 <= c < |t| && 0 <= d < |t|
    requires Own(y.lines[c].st) && y.lines[d].st != I
    ensures Under(t, c, d) || Under(t, d, c)
    decreases c + d
  {
    if c < d {
      assert Good(t, y.lines, t[d], y.latest);
      SingleWriter(t, y, c, t[d]);
      if !Under(t, c, t[d]) {
        OwnerPathIsClosed(t, y, c, d);
      }
    } else if d < c {
      assert Good(t, y.lines, t[c], y.latest);
      SingleWriter(t, y, t[c], d);
      if !Under(t, d, t[c]) {
        OwnerPathIsClosed(t, y, c, d);
      }
    }
  }

  /** An owner and a holder that have a common ancestor strictly above one and at the parent of the other. */
  lemma OwnerPathIsClosed(t: Tree, y: System, c: int, d: int)
    requires Inv(t, y) && 0 < c < |t| && 0 < d < |t|
    requires Own(y.lines[c].st) && y.lines[d].st != I
    requires (c < d && Under(t, t[d], c)) || (d < c && Under(t, t[c], d))
    ensures Under(t, c, d) || Under(t, d, c)
  {
    var p := if c < d then t[d] else t[c];
    if p == c || p == d {
      assert Under(t, c, c) && Under(t, d, d);
    } else {
      var c' := if c < d then Toward(t, p, c) else c;
      var d' := if c < d then d else Toward(t, p, d);
      GoodUnderAll(t, y, p);
      GoodUnderAll(t, y, c');
      GoodUnderAll(t, y, d');
      assert Under(t, p, p) && Good(t, y.lines, p, y.latest);
      assert Under(t, c, c) && Under(t, d, d);
      OwnAbove(t, y.lines, c', c, y.latest);
      if y.lines[d'].st == I {
        InvalidBelow(t, y.lines, d', d, y.latest);
      }
      var x := OnlySharer(t, y.lines, p, y.latest);
    }
  }

  // ---------------------------------------------------------------- reads see the last write

  lemma TerminalHoldsLatest(t: Tree, y: System, n: int)
    requires Inv(t, y) && Terminal(t, n)
    requires y.lines[n].st != I
    ensures y.lines[n].ver == y.latest
  {
    assert Good(t, y.lines, n, y.latest);
    forall c | n < c < |t| ensures t[c] != n {
      assert t[c] in t;
    }
  }

  lemma WriteKeeps(t: Tree, y: System, n: int)
    requires Inv(t, y) && Terminal(t, n) && y.lines[n].st == M
    ensures Inv(t, Write(y, n))
  {
    var y' := Write(y, n);
    forall k | 0 <= k < |t| ensures Good(t, y'.lines, k, y'.latest) {
      assert Good(t, y.lines, k, y.latest);
      if k != n && y.lines[k].st != I {
        SingleWriter(t, y, n, k);
        if Under(t, n, k) {
          NothingUnderTerminal(t, n, k);
        }
        var c := OwnerTowards(t, y, k, n);
        assert Good(t, y.lines, c, y.latest);
        assert Ahead(y'.lines[c], y'.latest);
      }
    }
    UnderRoot(t, n);
    GoodUnderAll(t, y, 0);
    OwnAbove(t, y.lines, 0, n, y.latest);
    assert Good(t, y.lines, 0, y.latest);
  }

  lemma {:induction false} NothingUnderTerminal(t: Tree, n: int, k: int)
    requires Terminal(t, n) && 0 <= k < |t| && Under(t, n, k)
    ensures k == n
    decreases k
  {
    forall i | 0 <= i < |t| ensures t[i] != n {
      assert t[i] in t;
    }
    if k != n {
      NothingUnderTerminal(t, n, t[k]);
    }
  }

  /** Above an owner, the child on the way to it is an owner as well. */
  lemma OwnerTowards(t: Tree, y: System, k: int, n: int) returns (c: int)
    requires Inv(t, y) && 0 <= k < n < |t| && Under(t, k, n) && Own(y.lines[n].st)
    ensures c in y.lines[k].sharers && k < c < |t| && Own(y.lines[c].st)
  {
    c := Toward(t, k, n);
    GoodUnderAll(t, y, c);
    OwnAbove(t, y.lines, c, n, y.latest);
    assert Good(t, y.lines, k, y.latest);
  }

  lemma StoreKeeps(t: Tree, y: System, n: int)
    requires Inv(t, y) && Terminal(t, n)
    ensures var y' := Store(t, y, n);
      Inv(t, y') && y'.lines[n].st == M && y'.latest == y.latest + 1 && y'.lines[n].ver == y'.latest
  {
    FetchKeeps(t, y, n, GETX, false);
    WriteKeeps(t, Fetch(t, y, n, GETX, false), n);
  }
}
