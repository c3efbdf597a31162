/** The interleaved machine gets its work done: however the outstanding requests' steps are ordered, they come to an
    end, and at that end every access has had its line and every eviction is over.
 */
module Progress {
  import opened Topology
  import opened Coherence
  import opened Protocol
  import opened Races
  import opened RaceSteps
  import opened Runs

  // ---------------------------------------------------------------- a measure that every step lowers

  /** A request that its parent has not taken up yet counts its distance from memory at most. */
  function Weight(r: Pending, k: nat): nat {
    if r.Req? && !r.started then k + 1 else 0
  }

  function Work(pend: seq<Pending>): nat {
    if pend == [] then 0 else Work(pend[..|pend| - 1]) + Weight(pend[|pend| - 1], |pend| - 1)
  }

  lemma {:induction false} WorkUpdate(pend: seq<Pending>, k: nat, r: Pending)
    requires k < |pend|
    ensures Work(pend[k := r]) == Work(pend) - Weight(pend[k], k) + Weight(r, k)
  {
    var n := |pend| - 1;
    if k == n {
      assert pend[k := r][..n] == pend[..n];
    } else {
      WorkUpdate(pend[..n], k, r);
      assert pend[k := r][..n] == pend[..n][k := r];
    }
  }

  /** Requests only retire. */
  ghost predicate Retires(pend: seq<Pending>, pend': seq<Pending>) {
    |pend'| == |pend| && forall k | 0 <= k < |pend| :: pend'[k] == Idle || pend'[k] == pend[k]
  }

  lemma {:induction false} RetiredWork(pend: seq<Pending>, pend': seq<Pending>)
    requires Retires(pend, pend')
    ensures Work(pend') <= Work(pend)
  {
    if pend != [] {
      RetiredWork(pend[..|pend| - 1], pend'[..|pend| - 1]);
    }
  }

  lemma {:induction false} UnwindRetires(t: Tree, z: Conc, c: int)
    requires WellSized(t, z) && 0 <= c < |t|
    ensures Retires(z.pend, Unwind(t, z, c).pend) && Unwind(t, z, c).pend[c] == Idle
    decreases |t| - c
  {
    var d := z.serving[c];
    if c < d < |t| && z.pend[d].Req? {
      var l := Grant(t, z.sys.lines, c, d, z.pend[d].ty, z.pend[d].noExcl);
      UnwindRetires(t, Conc(z.sys.(lines := l), z.pend[c := Idle], z.serving[c := -1]), d);
    }
  }

  /** The steps of requests that are under way already. */
  predicate Finishes(a: Step) {
    a.Climb? || a.Serve? || a.PutStep?
  }

  lemma StepWorks(t: Tree, z: Conc, a: Step)
    requires WellSized(t, z) && Enabled(t, z, a) && Finishes(a)
    ensures Work(Next(t, z, a).pend) < Work(z.pend)
  {
    var c, z' := a.c, Next(t, z, a);
    match a
    case Climb(_) =>
      var r, p := z'.pend[t[c]], t[c];
      WorkUpdate(z.pend, p, r);
      WorkUpdate(z.pend[p := r], c, z.pend[c].(started := true));
    case Serve(_) =>
      var z1 := Answered(t, z, c);
      UnwindRetires(t, z1, c);
      assert Retires(z.pend[c := Idle], z'.pend);
      RetiredWork(z.pend[c := Idle], z'.pend);
      WorkUpdate(z.pend, c, Idle);
    case PutStep(_) =>
      WorkUpdate(z.pend, c, Idle);
  }

  // ---------------------------------------------------------------- every run drains

  /** Each of the steps can be taken when its turn comes, and starts nothing new. */
  ghost predicate Taken(t: Tree, z: Conc, more: seq<Step>)
    requires WellSized(t, z)
    decreases |more|
  {
    more != [] ==> Enabled(t, z, more[0]) && Finishes(more[0]) && Taken(t, Next(t, z, more[0]), more[1..])
  }

  function After(t: Tree, z: Conc, more: seq<Step>): (z': Conc)
    requires WellSized(t, z) && Taken(t, z, more)
    ensures WellSized(t, z')
    decreases |more|
  {
    if more == [] then z else After(t, Next(t, z, more[0]), more[1..])
  }

  /** However the steps are ordered, there is an end to them; and all is well after each. */
  lemma {:induction false} AnyOrderEnds(t: Tree, z: Conc, more: seq<Step>)
    requires ConcInv(t, z) && Taken(t, z, more)
    ensures |more| + Work(After(t, z, more).pend) <= Work(z.pend) && ConcInv(t, After(t, z, more))
    decreases |more|
  {
    if more != [] {
      StepWorks(t, z, more[0]);
      NextKeeps(t, z, more[0]);
      AnyOrderEnds(t, Next(t, z, more[0]), more[1..]);
    }
  }

  lemma {:induction false} Drains(t: Tree, z: Conc) returns (more: seq<Step>)
    requires ConcInv(t, z)
    ensures Taken(t, z, more) && forall k | 0 <= k < |t| :: After(t, z, more).pend[k] == Idle
    decreases Work(z.pend)
  {
    if n :| 0 <= n < |t| && z.pend[n].Req? {
      var a := SomeStep(t, z, n);
      StepWorks(t, z, a);
      NextKeeps(t, z, a);
      var rest := Drains(t, Next(t, z, a));
      more := [a] + rest;
      assert more[0] == a && more[1..] == rest;
    } else {
      more := [];
    }
  }

  lemma SomeStep(t: Tree, z: Conc, n: int) returns (a: Step)
    requires ConcInv(t, z) && 0 <= n < |t| && z.pend[n].Req?
    ensures Enabled(t, z, a) && Finishes(a)
  {
    CanProceed(t, z, n);
    var c :| 0 <= c <= n && (Enabled(t, z, Climb(c)) || Enabled(t, z, Serve(c)) || Enabled(t, z, PutStep(c)));
    a := if Enabled(t, z, Climb(c)) then Climb(c) else if Enabled(t, z, Serve(c)) then Serve(c) else PutStep(c);
  }

  /** From every state of every run the outstanding requests come to an end: as long as there is one, some step can be
      taken, no order of such steps takes more than the measure says, and when none is left, nobody waits. */
  lemma EveryRunDrains(t: Tree, steps: seq<Step>)
    ensures exists more :: Taken(t, Run(t, steps), more) && Drained(t, After(t, Run(t, steps), more))
    ensures forall more | Taken(t, Run(t, steps), more) ::
      && |more| <= Work(Run(t, steps).pend)
      && (Drained(t, After(t, Run(t, steps), more)) || exists a :: Taken(t, Run(t, steps), more + [a]))
  {
    var z := Run(t, steps);
    RunKeeps(t, steps);
    var some := Drains(t, z);
    assert Drained(t, After(t, z, some));
    forall more | Taken(t, z, more)
      ensures |more| <= Work(z.pend)
      ensures Drained(t, After(t, z, more)) || exists a :: Taken(t, z, more + [a])
    {
      AnyOrderEnds(t, z, more);
      if !Drained(t, After(t, z, more)) {
        var n :| 0 <= n < |t| && After(t, z, more).pend[n] != Idle;
        var a := SomeStep(t, After(t, z, more), n);
        OneMore(t, z, more, a);
      }
    }
  }

  ghost predicate Drained(t: Tree, z: Conc)
    requires WellSized(t, z)
  {
    forall k | 0 <= k < |t| :: z.pend[k] == Idle
  }

  lemma {:induction false} OneMore(t: Tree, z: Conc, more: seq<Step>, a: Step)
    requires WellSized(t, z) && Taken(t, z, more) && Enabled(t, After(t, z, more), a) && Finishes(a)
    ensures Taken(t, z, more + [a])
    decreases |more|
  {
    if more == [] {
      assert [] + [a] == [a] && [a][1..] == [];
    } else {
      OneMore(t, Next(t, z, more[0]), more[1..], a);
      assert (more + [a])[1..] == more[1..] + [a];
    }
  }

  // ---------------------------------------------------------------- what an answer brings

  /** The cache at the end of the chain of waiting caches: the core's own. */
  function Asker(pend: seq<Pending>, serving: seq<int>, c: int): (n: int)
    requires 0 <= c < |pend| == |serving|
    ensures 0 <= n < |pend|
    decreases |pend| - c
  {
    var d := serving[c];
    if c < d < |pend| && pend[d].Req? then Asker(pend[c := Idle], serving[c := -1], d) else c
  }

  lemma {:induction false} UnwindBrings(t: Tree, z: Conc, c: int)
    requires Granted(t, z, c)
    ensures var n, z', r := Asker(z.pend, z.serving, c), Unwind(t, z, c), z.pend[c];
      && Terminal(t, n) && IsGet(z.pend[n]) && z.pend[n].ty == r.ty && z'.pend[n] == Idle
      && Got(r, z'.sys.lines[n].st) && z'.sys.lines[n].ver == z'.sys.latest
      && z'.sys.latest == z.sys.latest + if r.ty == GETX then 1 else 0
    decreases |t| - c
  {
    var d := z.serving[c];
    if c < d < |t| && z.pend[d].Req? {
      UnwindStep(t, z, c, d);
      var l := Grant(t, z.sys.lines, c, d, z.pend[d].ty, z.pend[d].noExcl);
      UnwindBrings(t, Conc(z.sys.(lines := l), z.pend[c := Idle], z.serving[c := -1]), d);
    } else if z.pend[c].ty != GETX {
      TerminalHoldsLatest(t, z.sys, c);
    }
  }

  /** An answer runs down to the core that asked: its cache then holds the newest data in the state that the access
      needs, and a store has been done. */
  lemma AnswerArrives(t: Tree, steps: seq<Step>, c: int)
    requires Enabled(t, Run(t, steps), Serve(c))
    ensures var z := Run(t, steps);
      var n, z', r := Asker(z.pend, z.serving, c), Next(t, z, Serve(c)), z.pend[c];
      && Terminal(t, n) && IsGet(z.pend[n]) && z.pend[n].ty == r.ty && z'.pend[n] == Idle
      && Got(r, z'.sys.lines[n].st) && z'.sys.lines[n].ver == z'.sys.latest
      && z'.sys.latest == z.sys.latest + if r.ty == GETX then 1 else 0
  {
    RunKeeps(t, steps);
    var z := Run(t, steps);
    ServeGrants(t, z, c);
    UnwindBrings(t, Answered(t, z, c), c);
    AnswerOrder(t, z.sys, c, z.pend[c].ty, z.pend[c].noExcl);
  }

  lemma AnswerOrder(t: Tree, y: System, c: int, ty: AccessType, noExcl: bool)
    requires Inv(t, y) && 0 <= c < |t|
    ensures Answer(t, y, c, ty, noExcl).latest == y.latest
  {
    if c > 0 {
      FetchKeeps(t, y, t[c], ty, noExcl);
    }
  }
}
