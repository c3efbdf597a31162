/** The coherence controllers as they are written: tables updated in place, a loop over the children, and
    calls up and down the tree. Every assert of the controllers is an assert here, proved from the
    invariant; every method's effect is a function of Coherence or Protocol, whose properties are proved there.
 */
module Hierarchy {
  import opened Topology
  import opened Coherence
  import opened Protocol

  class CacheTree {
    const t: Tree
    /** The bottom controllers' states and the top controllers' directory entries, one slot per cache. */
    const lines: array<Line>
    var mem: int
    var latest: int

    constructor (parents: Tree)
      ensures t == parents && fresh(lines)
      ensures lines.Length == |t| && Inv(t, Sys())
      ensures forall k | 0 <= k < |t| :: lines[k].st == I
    {
      t := parents;
      lines := new Line[|parents|](_ => Line(I, {}, 0, false, 0));
      mem, latest := 0, 0;
      new;
      forall k | 0 <= k < |t| ensures Good(t, lines[..], k, 0) {
      }
    }

    function Sys(): System
      reads this, lines
    {
      System(lines[..], mem, latest)
    }

    // -------------------------------------------------------------- downwards

    /** The sharers of l that the loop over the children has not come to. */
    ghost function Rest(l: Line, c: int): set<int> {
      set d | d in l.sharers && d >= c
    }

    /** MESITopCC::sendInvalidates. */
    method SendInvalidates(p: int, ty: InvType) returns (reqWriteback: bool)
      requires lines.Length == |t| && 0 <= p < |t|
      requires SharersGood(t, lines[..], p, p + 1, latest)
      requires lines[p].num == |lines[p].sharers|
      requires ty == INVX && IsExcl(lines[p]) ==> forall c | c in lines[p].sharers :: Own(lines[c].st)
      modifies lines
      ensures (lines[..], reqWriteback) == Coherence.SendInvalidates(t, old(lines[..]), p, ty)
      decreases |t| - p, 0, 1
    {
      reqWriteback := false;
      // A downgrade has nothing to do below a directory entry without an owner.
      if ty == INVX && !IsExcl(lines[p]) {
        return;
      }
      if lines[p].num != 0 {
        var sentInvs := 0;
        var c := p + 1;
        assert Rest(lines[p], p + 1) == lines[p].sharers;
        ghost var excl := lines[p].excl;
        while c < |t|
          invariant p < c <= |t|
          invariant InvalChildren(t, old(lines[..]), p, ty, p + 1)
            == (InvalChildren(t, lines[..], p, ty, c).0, reqWriteback || InvalChildren(t, lines[..], p, ty, c).1)
          invariant SharersGood(t, lines[..], p, c, latest)
          invariant lines[p].num == old(lines[p].num) && lines[p].excl == excl
          invariant sentInvs + |Rest(lines[p], c)| == lines[p].num
          invariant ty == INVX ==> forall d | d in Rest(lines[p], c) :: Own(lines[d].st)
        {
          if c in lines[p].sharers {
            assert Rest(lines[p], c) == Rest(lines[p], c + 1) + {c};
            var wb := InvalidateChild(p, c, ty);
            reqWriteback := reqWriteback || wb;
            sentInvs := sentInvs + 1;
          } else {
            assert Rest(lines[p], c) == Rest(lines[p], c + 1);
          }
          c := c + 1;
        }
        assert Rest(lines[p], c) == {};
        assert sentInvs == lines[p].num;
        if ty == INV {
          lines[p] := lines[p].(num := 0);
        } else {
          assert lines[p].excl;
          assert lines[p].num == 1;
          lines[p] := lines[p].(excl := false);
        }
      }
    }

    /** One round of that loop: the child is invalidated, its data taken in, its sharer bit cleared. */
    method InvalidateChild(p: int, c: int, ty: InvType) returns (wb: bool)
      requires lines.Length == |t| && 0 <= p < c < |t| && c in lines[p].sharers
      requires SharersGood(t, lines[..], p, c, latest)
      requires ty == INVX ==> Own(lines[c].st)
      modifies lines
      ensures InvalChildren(t, old(lines[..]), p, ty, c)
        == (InvalChildren(t, lines[..], p, ty, c + 1).0, wb || InvalChildren(t, lines[..], p, ty, c + 1).1)
      ensures SharersGood(t, lines[..], p, c + 1, latest)
      ensures lines[p].num == old(lines[p].num) && lines[p].excl == old(lines[p].excl)
      ensures Rest(lines[p], c + 1) == Rest(old(lines[p]), c + 1)
      ensures forall d | d in Rest(lines[p], c + 1) :: lines[d] == old(lines[d])
      decreases |t| - p, 0, 0
    {
      ghost var s := lines[..];
      if ty == INV {
        InvalClears(t, s, c, latest);
      } else {
        InvalDowngrades(t, s, c, latest);
      }
      assert !Under(t, c, p);
      wb := Invalidate(c, ty);
      var l := if wb then lines[p].(ver := lines[c].ver) else lines[p];
      ghost var s1 := lines[..];
      lines[p] := if ty == INV then l.(sharers := l.sharers - {c}) else l;
      assert lines[..] == s1[p := lines[p]];
      LaterSharersGood(s, lines[..], p, c, ty);
    }

    /** MESICC::processInv, and MESITerminalCC::processInv where there are no children. */
    method Invalidate(n: int, ty: InvType) returns (reqWriteback: bool)
      requires lines.Length == |t| && 0 <= n < |t|
      requires GoodUnder(t, lines[..], n, latest) && lines[n].st != I
      requires ty == INVX ==> Own(lines[n].st)
      modifies lines
      ensures (lines[..], reqWriteback) == Inval(t, old(lines[..]), n, ty)
      decreases |t| - n, 1
    {
      ghost var s := lines[..];
      SharersOfGood(s, n);
      SendKeepsState(s, n, ty);
      reqWriteback := SendInvalidates(n, ty);
      assert lines[n].st != I;
      if ty == INVX {
        assert lines[n].st == E || lines[n].st == M;
        if lines[n].st == M {
          reqWriteback := true;
        }
        lines[n] := lines[n].(st := S);
      } else {
        if lines[n].st == M {
          reqWriteback := true;
        }
        lines[n] := lines[n].(st := I);
      }
    }

    lemma SharersOfGood(s: Lines, n: int)
      requires |s| == |t| && 0 <= n < |t| && GoodUnder(t, s, n, latest)
      ensures SharersGood(t, s, n, n + 1, latest)
      ensures s[n].num == |s[n].sharers|
      ensures IsExcl(s[n]) ==> forall c | c in s[n].sharers :: Own(s[c].st)
    {
      assert Under(t, n, n) && Good(t, s, n, latest);
      forall d | d in s[n].sharers ensures GoodUnder(t, s, d, latest) {
        GoodBelow(t, s, n, d, latest);
      }
    }

    lemma SendKeepsState(s: Lines, n: int, ty: InvType)
      requires |s| == |t| && 0 <= n < |t| && GoodUnder(t, s, n, latest)
      ensures Coherence.SendInvalidates(t, s, n, ty).0[n].st == s[n].st
    {
      SharersOfGood(s, n);
      if ty == INV {
        SendClears(t, s, n, latest);
      } else if IsExcl(s[n]) {
        var x := OnlySharer(t, s, n, latest);
        SendDowngrades(t, s, n, x, latest);
      }
    }

    lemma LaterSharersGood(s: Lines, s2: Lines, p: int, c: int, ty: InvType)
      requires |s| == |s2| == |t| && 0 <= p < c < |t| && c in s[p].sharers
      requires SharersGood(t, s, p, c, latest)
      requires s2[p].sharers == if ty == INV then s[p].sharers - {c} else s[p].sharers
      requires forall k | 0 <= k < |t| && k != p :: !Under(t, c, k) ==> s2[k] == s[k]
      ensures SharersGood(t, s2, p, c + 1, latest)
      ensures forall d | d in s[p].sharers && d > c :: s2[d] == s[d]
    {
      forall d | d in s[p].sharers && d > c ensures s2[d] == s[d] && GoodUnder(t, s2, d, latest) {
        forall k | 0 <= k < |t| && Under(t, d, k) ensures s2[k] == s[k] {
          SiblingsDisjoint(t, d, c, k);
        }
        GoodFrame(t, s, s2, d, latest);
        assert Under(t, d, d);
      }
    }

    // -------------------------------------------------------------- upwards

    /** MESICC::processAccess at p for its child c: the bottom controller, the top controller, and the
        writeback that the latter may have induced.
     */
    method Access(p: int, c: int, ty: AccessType, noExcl: bool)
      requires lines.Length == |t| && 0 <= p < c < |t| && t[c] == p
      requires Inv(t, Sys())
      requires match ty
        case GETS => lines[c].st == I
        case GETX => !Own(lines[c].st)
        case PUTS => (lines[c].st == S || lines[c].st == E) && lines[c].sharers == {}
        case PUTX => lines[c].st == M && lines[c].sharers == {}
      modifies lines
      ensures Sys() ==
        if ty == PUTS || ty == PUTX then old(Sys()).(lines := Put(old(Sys()).lines, p, c, ty))
        else var y := Fetch(t, old(Sys()), p, ty, noExcl); y.(lines := Grant(t, y.lines, p, c, ty, noExcl))
      decreases p, 1
    {
      ghost var y := Sys();
      assert Good(t, y.lines, p, y.latest);
      assert Under(t, p, c) && c != p by {
        assert Under(t, p, p);
      }
      match ty {
        case PUTS =>
          assert lines[p].st != I;
          TopPut(p, c, PUTS);
        case PUTX =>
          assert lines[p].st == M || lines[p].st == E;
          lines[p] := lines[p].(st := M, ver := lines[c].ver);
          TopPut(p, c, PUTX);
        case GETS =>
          FetchKeeps(t, y, p, GETS, noExcl);
          BottomGet(p, GETS, noExcl);
          var wb := TopGetS(p, c, Own(lines[p].st), noExcl);
          WritebackOnAccess(p, wb);
        case GETX =>
          FetchKeeps(t, y, p, GETX, noExcl);
          BottomGet(p, GETX, noExcl);
          var wb := TopGetX(p, c, Own(lines[p].st));
          WritebackOnAccess(p, wb);
      }
    }

    /** MESIBottomCC::processWritebackOnAccess. */
    method WritebackOnAccess(p: int, wb: bool)
      requires lines.Length == |t| && 0 <= p < |t|
      requires wb ==> Own(lines[p].st)
      modifies lines
      ensures lines[..] == old(lines[..])[p := Dirtied(old(lines[p]), wb)]
    {
      if wb {
        assert lines[p].st == M || lines[p].st == E;
        if lines[p].st == E {
          lines[p] := lines[p].(st := M);
        }
      }
    }

    /** MESIBottomCC::processAccess for a GET: a hit, a silent upgrade, or a request to the parent or memory. */
    method BottomGet(p: int, ty: AccessType, noExcl: bool)
      requires lines.Length == |t| && 0 <= p < |t| && (ty == GETS || ty == GETX)
      requires Inv(t, Sys())
      modifies lines
      ensures Sys() == Fetch(t, old(Sys()), p, ty, noExcl)
      decreases p, 0, 1
    {
      FetchKeeps(t, Sys(), p, ty, noExcl);
      if ty == GETS {
        if lines[p].st == I {
          GetFromAbove(p, GETS, noExcl);
          assert lines[p].st == S || lines[p].st == E;
        }
      } else {
        if lines[p].st == I || lines[p].st == S {
          GetFromAbove(p, GETX, noExcl);
        } else if lines[p].st == E {
          lines[p] := lines[p].(st := M);
        }
        assert lines[p].st == M;
      }
    }

    method GetFromAbove(p: int, ty: AccessType, noExcl: bool)
      requires lines.Length == |t| && 0 <= p < |t| && (ty == GETS || ty == GETX)
      requires Inv(t, Sys()) && (if ty == GETX then !Own(lines[p].st) else lines[p].st == I)
      modifies lines
      ensures Sys() == Fetch(t, old(Sys()), p, ty, noExcl)
      decreases p, 0, 0
    {
      if p == 0 {
        lines[0] := MemGive(lines[0], mem, ty, noExcl);
      } else {
        Access(t[p], p, ty, noExcl);
      }
    }

    /** MESITopCC::processAccess, case GETS. */
    method TopGetS(p: int, c: int, haveExclusive: bool, noExcl: bool) returns (inducedWriteback: bool)
      requires lines.Length == |t| && 0 <= p < c < |t| && t[c] == p
      requires Inv(t, Sys()) && lines[c].st == I && lines[p].st != I && haveExclusive == Own(lines[p].st)
      modifies lines
      ensures lines[..][p := Dirtied(lines[p], inducedWriteback)] == GrantShared(t, old(lines[..]), p, c, noExcl)
      ensures inducedWriteback ==> Own(lines[p].st)
      ensures SharedOutcome(t, old(lines[..]), lines[..][p := Dirtied(lines[p], inducedWriteback)], p, c, noExcl)
    {
      ghost var s := lines[..];
      SharedExactly(t, Sys(), p, c, noExcl);
      assert Good(t, s, p, latest);
      inducedWriteback := false;
      if lines[p].num == 0 && haveExclusive && !noExcl {
        lines[p] := lines[p].(excl := true, sharers := lines[p].sharers + {c}, num := 1);
        lines[c] := lines[c].(st := E, ver := lines[p].ver);
      } else {
        inducedWriteback := Share(p, c);
      }
    }

    /** The shared grant: an exclusive sharer is downgraded first. */
    method Share(p: int, c: int) returns (inducedWriteback: bool)
      requires lines.Length == |t| && 0 <= p < c < |t| && t[c] == p
      requires Inv(t, Sys()) && lines[c].st == I && lines[p].st != I
      modifies lines
      ensures var s := old(lines[..]);
        var (s1, wb) := if IsExcl(s[p]) then Coherence.SendInvalidates(t, s, p, INVX) else (s, false);
        inducedWriteback == wb && lines[..][p := Dirtied(lines[p], wb)] == Give(s1[p := Dirtied(s1[p], wb)], p, c, S)
      ensures inducedWriteback ==> Own(lines[p].st)
    {
      ghost var s := lines[..];
      GoodUnderAll(t, Sys(), p);
      SharersOfGood(s, p);
      assert Good(t, s, p, latest);
      inducedWriteback := false;
      assert c !in lines[p].sharers;
      if IsExcl(lines[p]) {
        DowngradeSpares(s, p, c);
        inducedWriteback := SendInvalidates(p, INVX);
      }
      assert !IsExcl(lines[p]);
      lines[p] := lines[p].(sharers := lines[p].sharers + {c}, num := lines[p].num + 1, excl := false);
      lines[c] := lines[c].(st := S, ver := lines[p].ver);
    }

    /** The downgrade for c's sake touches neither c nor the state and sharers of p. */
    lemma DowngradeSpares(s: Lines, p: int, c: int)
      requires |s| == |t| && 0 <= p < c < |t| && t[c] == p
      requires GoodUnder(t, s, p, latest) && IsExcl(s[p]) && s[c].st == I
      ensures var (s1, wb) := Coherence.SendInvalidates(t, s, p, INVX);
        s1[c] == s[c] && s1[p] == s[p].(excl := false, ver := s1[p].ver) && Own(s[p].st)
    {
      var x := OnlySharer(t, s, p, latest);
      SendDowngrades(t, s, p, x, latest);
      assert Under(t, p, p) && Good(t, s, p, latest);
      assert Under(t, c, c);
      SiblingsDisjoint(t, c, x, c);
    }

    /** MESITopCC::processAccess, case GETX. */
    method TopGetX(p: int, c: int, haveExclusive: bool) returns (inducedWriteback: bool)
      requires lines.Length == |t| && 0 <= p < c < |t| && t[c] == p
      requires Inv(t, Sys()) && !Own(lines[c].st) && Own(lines[p].st) && haveExclusive == Own(lines[p].st)
      modifies lines
      ensures lines[..][p := Dirtied(lines[p], inducedWriteback)] == GrantExclusive(t, old(lines[..]), p, c)
      ensures inducedWriteback ==> Own(lines[p].st)
    {
      assert haveExclusive;
      ghost var s := lines[..];
      TakeOut(p, c);
      InvalidationSpares(lines[..], p, c);
      inducedWriteback := SendInvalidates(p, INV);
      lines[p] := lines[p].(sharers := lines[p].sharers + {c}, num := lines[p].num + 1, excl := true);
      assert lines[p].num == 1;
      lines[c] := lines[c].(st := M, ver := lines[p].ver);
    }

    /** A child that upgrades its shared copy leaves the directory before the others are invalidated. */
    method TakeOut(p: int, c: int)
      requires lines.Length == |t| && 0 <= p < c < |t| && t[c] == p
      requires Inv(t, Sys()) && !Own(lines[c].st)
      modifies lines
      ensures lines[..] == if c in old(lines[p]).sharers
        then old(lines[..])[p := old(lines[p]).(sharers := old(lines[p]).sharers - {c}, num := old(lines[p]).num - 1)]
        else old(lines[..])
      ensures SharersGood(t, lines[..], p, p + 1, latest) && c !in lines[p].sharers
        && lines[p].num == |lines[p].sharers|
    {
      ghost var s := lines[..];
      GoodUnderAll(t, Sys(), p);
      assert Good(t, s, p, latest);
      if c in lines[p].sharers {
        assert !IsExcl(lines[p]);
        lines[p] := lines[p].(sharers := lines[p].sharers - {c}, num := lines[p].num - 1);
      }
      OtherSharersGood(t, s, lines[..], p, c, latest);
    }

    lemma InvalidationSpares(s0: Lines, p: int, c: int)
      requires |s0| == |t| && 0 <= p < c < |t| && t[c] == p
      requires SharersGood(t, s0, p, p + 1, latest) && c !in s0[p].sharers && s0[p].num == |s0[p].sharers|
      ensures var (s1, wb) := Coherence.SendInvalidates(t, s0, p, INV);
        s1[c] == s0[c] && s1[p] == s0[p].(sharers := {}, num := 0, ver := s1[p].ver)
    {
      SendClears(t, s0, p, latest);
      assert Under(t, c, c);
      TowardIsUnique(t, p, c, c);
    }

    /** MESITopCC::processAccess, cases PUTX and PUTS. */
    method TopPut(p: int, c: int, ty: AccessType)
      requires lines.Length == |t| && 0 <= p < c < |t|
      requires c in lines[p].sharers && (ty == PUTX ==> IsExcl(lines[p]))
      modifies lines
      ensures lines[..] == old(lines[..])
        [p := old(lines[p]).(sharers := old(lines[p]).sharers - {c}, num := old(lines[p]).num - 1)]
        [c := old(lines[c]).(st := I)]
    {
      if ty == PUTX {
        assert IsExcl(lines[p]);
      }
      assert c in lines[p].sharers;
      lines[p] := lines[p].(sharers := lines[p].sharers - {c}, num := lines[p].num - 1);
      lines[c] := lines[c].(st := I);
    }

    // -------------------------------------------------------------- a cache's own operations

    /** MESICC::processEviction: invalidate below, then PUT to the parent or to memory. */
    method EvictLine(n: int)
      requires lines.Length == |t| && 0 <= n < |t|
      requires Inv(t, Sys())
      modifies this`mem, lines
      ensures Sys() == Evict(t, old(Sys()), n)
      ensures lines[n].st == I
    {
      ghost var y := Sys();
      VacateKeeps(t, y, n);
      EvictKeeps(t, y, n);
      GoodUnderAll(t, y, n);
      SharersOfGood(y.lines, n);
      SendTellsOwner(y.lines, n);
      var lowerLevelWriteback := SendInvalidates(n, INV);
      if lowerLevelWriteback {
        assert lines[n].st == M || lines[n].st == E;
        lines[n] := lines[n].(st := M);
      }
      assert lines[..] == Vacate(t, y.lines, n);
      match lines[n].st {
        case I =>
        case S | E =>
          if n == 0 { lines[0] := lines[0].(st := I); } else { Access(t[n], n, PUTS, false); }
        case M =>
          if n == 0 {
            mem := lines[0].ver;
            lines[0] := lines[0].(st := I);
          } else {
            Access(t[n], n, PUTX, false);
          }
      }
      assert lines[n].st == I;
    }

    lemma SendTellsOwner(s: Lines, n: int)
      requires |s| == |t| && 0 <= n < |t| && GoodUnder(t, s, n, latest)
      ensures var (s1, wb) := Coherence.SendInvalidates(t, s, n, INV);
        s1[n].st == s[n].st && (wb ==> Own(s[n].st))
    {
      SharersOfGood(s, n);
      SendClears(t, s, n, latest);
      var (s1, wb) := Coherence.SendInvalidates(t, s, n, INV);
      OwnerAboveM(t, s, s1, n, wb, latest);
    }

    /** A load at a terminal cache: it reads what the last store of any core wrote. */
    method Load(n: int, noExcl: bool) returns (v: int)
      requires lines.Length == |t| && Terminal(t, n) && Inv(t, Sys())
      modifies lines
      ensures Inv(t, Sys()) && Sys() == Fetch(t, old(Sys()), n, GETS, noExcl)
      ensures v == latest
    {
      FetchKeeps(t, Sys(), n, GETS, noExcl);
      BottomGet(n, GETS, noExcl);
      TerminalHoldsLatest(t, Sys(), n);
      v := lines[n].ver;
    }

    /** A store at a terminal cache. */
    method StoreAt(n: int)
      requires lines.Length == |t| && Terminal(t, n) && Inv(t, Sys())
      modifies this`latest, lines
      ensures Inv(t, Sys()) && Sys() == Store(t, old(Sys()), n)
    {
      FetchKeeps(t, Sys(), n, GETX, false);
      StoreKeeps(t, Sys(), n);
      BottomGet(n, GETX, false);
      latest := latest + 1;
      lines[n] := lines[n].(ver := latest);
    }
  }
}
