/** Every step of the interleaved machine keeps its invariant. */
module RaceSteps {
  import opened Topology
  import opened Coherence
  import opened Protocol
  import opened RaceFilter
  import opened Races

  /** Losing permissions to invalidations keeps a pending request one that the filter expects. */
  lemma DecayedOk(z: Conc, z': Conc, k: int)
    requires |z.sys.lines| == |z.pend| == |z'.sys.lines| == |z'.pend| && 0 <= k < |z.pend|
    requires PendOk(z, k) && z'.pend[k] == z.pend[k]
    requires Decays(z.sys.lines[k], z'.sys.lines[k])
    ensures PendOk(z', k)
  {
  }

  /** The state in which a GET leaves the cache that sent it. */
  ghost predicate Got(r: Pending, st: MESIState)
    requires IsGet(r)
  {
    if r.ty == GETX then st == M else st != I && (r.noExcl ==> st == S)
  }

  lemma AnswerKeeps(t: Tree, z: Conc, c: int)
    requires ConcInv(t, z) && 0 <= c < |t| && IsGet(z.pend[c]) && Enabled(t, z, Serve(c))
    ensures var y' := Answer(t, z.sys, c, z.pend[c].ty, z.pend[c].noExcl);
      && Inv(t, y')
      && Got(z.pend[c], y'.lines[c].st)
      && (forall k | 0 <= k < |t| && k != c && (c > 0 ==> k != t[c]) :: Decays(z.sys.lines[k], y'.lines[k]))
      && (c != 0 && t[c] != 0 ==> y'.lines[0] == z.sys.lines[0])
  {
    assert PendOk(z, c);
    var ty, noExcl := z.pend[c].ty, z.pend[c].noExcl;
    if c == 0 {
      MemGiveKeeps(t, z.sys, ty, noExcl);
    } else {
      var p := t[c];
      FetchKeeps(t, z.sys, p, ty, noExcl);
      var y1 := Fetch(t, z.sys, p, ty, noExcl);
      assert forall k | 0 <= k < |t| && k != p :: y1.lines[k] == z.sys.lines[k];
      if ty == GETX {
        GrantExclusiveKeeps(t, y1, p, c);
      } else {
        GrantSharedKeeps(t, y1, p, c, noExcl);
      }
      if p != 0 {
        assert !Under(t, p, 0);
      }
    }
  }

  /** c has just been given its line, and its chain is still waiting. */
  ghost predicate Granted(t: Tree, z: Conc, c: int) {
    && WellSized(t, z) && 0 <= c < |t|
    && Inv(t, z.sys)
    && IsGet(z.pend[c])
    && Got(z.pend[c], z.sys.lines[c].st)
    && (forall k {:trigger PendOk(z, k)} | 0 <= k < |t| && k != c :: PendOk(z, k))
    && (forall k {:trigger ChainOk(t, z, k)} | 0 <= k < |t| && k != c :: ChainOk(t, z, k))
    && ChainOk(t, z.(pend := z.pend[c := z.pend[c].(started := false)]), c)
    && (c > 0 ==> !(IsGet(z.pend[t[c]]) && z.serving[t[c]] == c))
    && (c > 0 && z.pend[0].Req? ==> z.sys.lines[0].st == z.pend[0].init)
  }

  lemma {:induction false} UnwindKeeps(t: Tree, z: Conc, c: int)
    requires Granted(t, z, c)
    ensures ConcInv(t, Unwind(t, z, c))
    decreases |t| - c
  {
    var d := z.serving[c];
    if c < d < |t| && z.pend[d].Req? {
      UnwindStep(t, z, c, d);
      var l := Grant(t, z.sys.lines, c, d, z.pend[d].ty, z.pend[d].noExcl);
      UnwindKeeps(t, Conc(z.sys.(lines := l), z.pend[c := Idle], z.serving[c := -1]), d);
    } else {
      UnwindEnd(t, z, c);
    }
  }

  lemma UnwindEnd(t: Tree, z: Conc, c: int)
    requires Granted(t, z, c) && z.serving[c] == -1
    ensures ConcInv(t, z.(sys := if z.pend[c].ty == GETX then Write(z.sys, c) else z.sys, pend := z.pend[c := Idle]))
  {
    var z' := z.(sys := if z.pend[c].ty == GETX then Write(z.sys, c) else z.sys, pend := z.pend[c := Idle]);
    if z.pend[c].ty == GETX {
      WriteKeeps(t, z.sys, c);
    }
    forall k | 0 <= k < |t| ensures PendOk(z', k) {
      if k != c {
        DecayedOk(z, z', k);
      }
    }
    IdleChains(t, z, z', c);
  }

  /** Retiring c's request upsets no chain. */
  lemma IdleChains(t: Tree, z: Conc, z': Conc, c: int)
    requires WellSized(t, z) && WellSized(t, z') && 0 <= c < |t|
    requires forall k | 0 <= k < |t| && k != c :: ChainOk(t, z, k)
    requires z'.pend == z.pend[c := Idle] && forall k | 0 <= k < |t| && k != c :: z'.serving[k] == z.serving[k]
    requires IsGet(z.pend[c]) ==> z.serving[c] == -1
    requires c > 0 ==> !(IsGet(z.pend[t[c]]) && z.serving[t[c]] == c)
    ensures forall k {:trigger ChainOk(t, z', k)} | 0 <= k < |t| :: ChainOk(t, z', k)
  {
    forall k | 0 <= k < |t| ensures ChainOk(t, z', k) {
      if k != c {
        assert ChainOk(t, z, k);
      }
    }
  }

  lemma UnwindStep(t: Tree, z: Conc, c: int, d: int)
    requires Granted(t, z, c) && d == z.serving[c] && c < d < |t| && z.pend[d].Req?
    ensures var l := Grant(t, z.sys.lines, c, d, z.pend[d].ty, z.pend[d].noExcl);
      Granted(t, Conc(z.sys.(lines := l), z.pend[c := Idle], z.serving[c := -1]), d)
  {
    assert ChainOk(t, z, d);
    assert PendOk(z, d);
    if z.pend[d].ty == GETX {
      GrantExclusiveKeeps(t, z.sys, c, d);
    } else {
      GrantSharedKeeps(t, z.sys, c, d, z.pend[d].noExcl);
    }
    UnwindStepWith(t, z, c, d, Grant(t, z.sys.lines, c, d, z.pend[d].ty, z.pend[d].noExcl));
  }

  lemma UnwindStepWith(t: Tree, z: Conc, c: int, d: int, l: Lines)
    requires Granted(t, z, c) && d == z.serving[c] && c < d < |t| && t[d] == c && IsGet(z.pend[d])
    requires |l| == |t| && Inv(t, z.sys.(lines := l)) && GrantFrame(t, z.sys.lines, l, c, d)
    requires Got(z.pend[d], l[d].st)
    ensures Granted(t, Conc(z.sys.(lines := l), z.pend[c := Idle], z.serving[c := -1]), d)
  {
    var z' := Conc(z.sys.(lines := l), z.pend[c := Idle], z.serving[c := -1]);
    forall k | 0 <= k < |t| && k != d ensures PendOk(z', k) {
      if k != c {
        DecayedOk(z, z', k);
      }
    }
    forall k | 0 <= k < |t| && k != d ensures ChainOk(t, z', k) {
      if k != c {
        UnwoundChain(t, z, z', c, d, k);
      }
    }
    assert ChainOk(t, z, d);
    if c > 0 {
      assert !Under(t, c, 0);
    }
  }

  lemma UnwoundChain(t: Tree, z: Conc, z': Conc, c: int, d: int, k: int)
    requires WellSized(t, z) && WellSized(t, z') && 0 <= c < d < |t| && 0 <= k < |t| && k != c && k != d
    requires z'.pend == z.pend[c := Idle] && z'.serving == z.serving[c := -1]
    requires z.serving[c] == d && ChainOk(t, z, k)
    requires c > 0 ==> !(IsGet(z.pend[t[c]]) && z.serving[t[c]] == c)
    ensures ChainOk(t, z', k)
  {
  }

  /** After the answer, c has been given its line. */
  lemma ServeGrants(t: Tree, z: Conc, c: int)
    requires ConcInv(t, z) && Enabled(t, z, Serve(c))
    ensures Granted(t, Answered(t, z, c), c)
  {
    AnswerKeeps(t, z, c);
    var z1 := Answered(t, z, c);
    assert PendOk(z, c) && ChainOk(t, z, c);
    forall k | 0 <= k < |t| && k != c ensures PendOk(z1, k) {
      if c == 0 || k != t[c] {
        DecayedOk(z, z1, k);
      }
    }
    forall k | 0 <= k < |t| && k != c ensures ChainOk(t, z1, k) {
      assert ChainOk(t, z, k);
    }
    assert z.pend[c := z.pend[c].(started := false)] == z.pend;
    if c > 0 {
      assert ChainOk(t, z, t[c]);
    }
  }

  lemma ServeKeeps(t: Tree, z: Conc, c: int)
    requires ConcInv(t, z) && Enabled(t, z, Serve(c))
    ensures ConcInv(t, Next(t, z, Serve(c)))
  {
    ServeGrants(t, z, c);
    UnwindKeeps(t, Answered(t, z, c), c);
  }

  lemma ClimbKeeps(t: Tree, z: Conc, c: int)
    requires ConcInv(t, z) && Enabled(t, z, Climb(c))
    ensures ConcInv(t, Next(t, z, Climb(c)))
  {
    var z', p := Next(t, z, Climb(c)), t[c];
    assert PendOk(z, c);
    forall k | 0 <= k < |t| ensures PendOk(z', k) {
      assert PendOk(z, k);
    }
    assert ChainOk(t, z, c);
    assert ChainOk(t, z, p);
    forall k | 0 <= k < |t| ensures ChainOk(t, z', k) {
      assert ChainOk(t, z, k);
      ClimbedChain(t, z, z', c, k);
    }
  }

  lemma ClimbedChain(t: Tree, z: Conc, z': Conc, c: int, k: int)
    requires WellSized(t, z) && WellSized(t, z') && 0 < c < |t| && 0 <= k < |t|
    requires z.pend[t[c]] == Idle && IsGet(z.pend[c]) && !z.pend[c].started
    requires z'.pend == z.pend[t[c] := z'.pend[t[c]]][c := z.pend[c].(started := true)]
      && z'.serving == z.serving[t[c] := c]
    requires IsGet(z'.pend[t[c]]) && z'.pend[t[c]].ty == z.pend[c].ty && z'.pend[t[c]].noExcl == z.pend[c].noExcl
    requires !z'.pend[t[c]].started
    requires ChainOk(t, z, k) && ChainOk(t, z, c)
    ensures ChainOk(t, z', k)
  {
  }

  /** A new request of an idle cache upsets no chain. */
  lemma NewRequestChains(t: Tree, z: Conc, z': Conc, n: int)
    requires ConcInv(t, z) && WellSized(t, z') && 0 <= n < |t|
    requires z.pend[n] == Idle && z'.pend == z.pend[n := z'.pend[n]] && z'.serving == z.serving[n := -1]
    requires z'.pend[n].Req? ==> !z'.pend[n].started
    requires IsGet(z'.pend[n]) ==> Terminal(t, n)
    ensures forall k {:trigger ChainOk(t, z', k)} | 0 <= k < |t| :: ChainOk(t, z', k)
  {
    forall k | 0 <= k < |t| ensures ChainOk(t, z', k) {
      assert ChainOk(t, z, k);
    }
  }

  lemma EvictStartKeeps(t: Tree, z: Conc, n: int)
    requires ConcInv(t, z) && Enabled(t, z, EvictStart(n))
    ensures ConcInv(t, Next(t, z, EvictStart(n)))
  {
    var z' := Next(t, z, EvictStart(n));
    VacateKeeps(t, z.sys, n);
    forall k | 0 <= k < |t| ensures PendOk(z', k) {
      if k != n {
        DecayedOk(z, z', k);
      }
    }
    NewRequestChains(t, z, z', n);
    if n != 0 {
      assert !Under(t, n, 0);
    }
  }

  lemma CoreGetKeeps(t: Tree, z: Conc, n: int, ty: AccessType, noExcl: bool)
    requires ConcInv(t, z) && Enabled(t, z, CoreGet(n, ty, noExcl))
    ensures ConcInv(t, Next(t, z, CoreGet(n, ty, noExcl)))
  {
    var z' := Next(t, z, CoreGet(n, ty, noExcl));
    forall k | 0 <= k < |t| ensures PendOk(z', k) {
      assert PendOk(z, k);
    }
    NewRequestChains(t, z, z', n);
  }

  lemma StoreHitKeeps(t: Tree, z: Conc, n: int)
    requires ConcInv(t, z) && Enabled(t, z, StoreHit(n))
    ensures ConcInv(t, Next(t, z, StoreHit(n)))
  {
    var z' := Next(t, z, StoreHit(n));
    UpgradeKeeps(t, z.sys, n);
    WriteKeeps(t, z.sys.(lines := z.sys.lines[n := z.sys.lines[n].(st := M)]), n);
    forall k | 0 <= k < |t| ensures PendOk(z', k) {
      assert PendOk(z, k);
    }
    forall k | 0 <= k < |t| ensures ChainOk(t, z', k) {
      assert ChainOk(t, z, k);
    }
  }

  lemma PutStepKeeps(t: Tree, z: Conc, c: int)
    requires ConcInv(t, z) && Enabled(t, z, PutStep(c))
    ensures var z' := Next(t, z, PutStep(c));
      ConcInv(t, z') && z'.sys.lines[c].st == I
  {
    var z' := Next(t, z, PutStep(c));
    assert PendOk(z, c) && ChainOk(t, z, c);
    if z.sys.lines[c].st != I {
      PutUpKeeps(t, z.sys, c);
      assert z'.sys == PutUp(t, z.sys, c);
    }
    forall k | 0 <= k < |t| ensures PendOk(z', k) {
      assert PendOk(z, k);
    }
    if c > 0 {
      assert ChainOk(t, z, t[c]);
    }
    IdleChains(t, z, z', c);
  }

  lemma NextKeeps(t: Tree, z: Conc, a: Step)
    requires ConcInv(t, z) && Enabled(t, z, a)
    ensures ConcInv(t, Next(t, z, a))
  {
    match a
    case CoreGet(n, ty, noExcl) => CoreGetKeeps(t, z, n, ty, noExcl);
    case StoreHit(n) => StoreHitKeeps(t, z, n);
    case Climb(c) => ClimbKeeps(t, z, c);
    case Serve(c) => ServeKeeps(t, z, c);
    case EvictStart(n) => EvictStartKeeps(t, z, n);
    case PutStep(c) => PutStepKeeps(t, z, c);
  }
}
