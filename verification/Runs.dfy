/** What holds in every run of the interleaved machine: coherence, a race filter that never panics, and requests
    and answers that fit the directories they meet.
 */
module Runs {
  import opened Topology
  import opened Coherence
  import opened Protocol
  import opened RaceFilter
  import opened Races
  import opened RaceSteps

  /** All caches empty, nothing outstanding. */
  function Boot(t: Tree): (z: Conc)
    ensures WellSized(t, z)
  {
    Conc(System(seq(|t|, _ => Line(I, {}, 0, false, 0)), 0, 0), seq(|t|, _ => Idle), seq(|t|, _ => -1))
  }

  /** The state after some steps from power-on; a step that cannot be taken is passed over. */
  function Run(t: Tree, steps: seq<Step>): (z: Conc)
    ensures WellSized(t, z)
  {
    if steps == [] then Boot(t)
    else
      var z := Run(t, steps[..|steps| - 1]);
      if Enabled(t, z, steps[|steps| - 1]) then Next(t, z, steps[|steps| - 1]) else z
  }

  lemma BootOk(t: Tree)
    ensures ConcInv(t, Boot(t))
  {
    var z := Boot(t);
    forall k | 0 <= k < |t| ensures Good(t, z.sys.lines, k, 0) && PendOk(z, k) && ChainOk(t, z, k) {
    }
  }

  lemma {:induction false} RunKeeps(t: Tree, steps: seq<Step>)
    ensures ConcInv(t, Run(t, steps))
  {
    if steps == [] {
      BootOk(t);
    } else {
      var before, a := steps[..|steps| - 1], steps[|steps| - 1];
      RunKeeps(t, before);
      if Enabled(t, Run(t, before), a) {
        NextKeeps(t, Run(t, before), a);
      }
    }
  }

  /** An owner and any other holder lie on one path down the tree. */
  ghost predicate OneWriter(t: Tree, lines: Lines)
    requires |lines| == |t|
  {
    forall c, d | 0 <= c < |t| && 0 <= d < |t| && Own(lines[c].st) && lines[d].st != I ::
      Under(t, c, d) || Under(t, d, c)
  }

  /** A terminal cache that holds the line holds what the last store wrote. */
  ghost predicate ReadsLatest(t: Tree, y: System)
    requires |y.lines| == |t|
  {
    forall n | Terminal(t, n) && y.lines[n].st != I :: y.lines[n].ver == y.latest
  }

  ghost predicate SomeM(lines: Lines) {
    exists k | 0 <= k < |lines| :: lines[k].st == M
  }

  /** In every state that any interleaving of any threads' steps reaches, over any tree: an owner excludes
      all caches off its path; every directory entry is exact; a terminal cache that holds the line holds
      what the last store wrote, so every load hit reads it; and if memory is behind, some cache is in M.
   */
  lemma EveryRunIsCoherent(t: Tree, steps: seq<Step>)
    ensures OneWriter(t, Run(t, steps).sys.lines)
    ensures forall p | 0 <= p < |t| :: Exact(t, Run(t, steps).sys.lines, p)
    ensures ReadsLatest(t, Run(t, steps).sys)
    ensures Run(t, steps).sys.mem != Run(t, steps).sys.latest ==> SomeM(Run(t, steps).sys.lines)
  {
    RunKeeps(t, steps);
    var z := Run(t, steps);
    forall c, d | 0 <= c < |t| && 0 <= d < |t| && Own(z.sys.lines[c].st) && z.sys.lines[d].st != I
      ensures Under(t, c, d) || Under(t, d, c)
    {
      SingleWriter(t, z.sys, c, d);
    }
    forall p | 0 <= p < |t| ensures Exact(t, z.sys.lines, p) {
      assert Good(t, z.sys.lines, p, z.sys.latest);
    }
    forall n | Terminal(t, n) && z.sys.lines[n].st != I ensures z.sys.lines[n].ver == z.sys.latest {
      TerminalHoldsLatest(t, z.sys, n);
    }
    if z.sys.mem != z.sys.latest && z.sys.lines[0].st != M {
      GoodUnderAll(t, z.sys, 0);
      StaleHasMBelow(t, z.sys.lines, 0, z.sys.latest);
    }
  }

  /** What the parent's directory asks of a request of type ty from c: a PUT comes from a sharer of a valid
      line, a PUTX from the exclusive one; a GETS from a cache that is no sharer; an upgrade finds no
      exclusive sharer, and a GETX is answered by an owner. */
  predicate FitsParent(t: Tree, lines: Lines, c: int, ty: AccessType, answered: bool)
    requires |lines| == |t| && 0 < c < |t|
  {
    var e := lines[t[c]];
    match ty
    case PUTS => c in e.sharers && e.st != I
    case PUTX => c in e.sharers && IsExcl(e) && Own(e.st)
    case GETS => c !in e.sharers && (answered ==> e.st != I)
    case GETX => (c in e.sharers ==> !IsExcl(e)) && (answered ==> Own(e.st))
  }

  /** The filter does not panic at this step; a skipped request is a PUT whose line is gone; what passes is legal
      for the state the sender is in now, a GET unchanged, and fits the parent's directory. */
  predicate FiltersRight(t: Tree, z: Conc, a: Step)
    requires WellSized(t, z) && Enabled(t, z, a) && MeetsFilter(t, z, a)
  {
    match Filter(t, z, a.c)
    case Panic => false
    case SkipAccess => a.PutStep? && z.sys.lines[a.c].st == I
    case Proceed(ty') =>
      && Legal(ty', z.sys.lines[a.c].st) && (a.PutStep? || ty' == z.pend[a.c].ty)
      && FitsParent(t, z.sys.lines, a.c, ty', a.Serve?)
  }

  /** c has its line. If it asked for a child, that child's request fits its directory now, as an answered one,
      and so on down the chain of waiting caches, each after the grants before it. */
  predicate GrantsFit(t: Tree, z: Conc, c: int)
    requires WellSized(t, z) && 0 <= c < |t|
    decreases |t| - c
  {
    var d := z.serving[c];
    c < d < |t| && z.pend[d].Req? ==>
      && t[d] == c && IsGet(z.pend[d]) && FitsParent(t, z.sys.lines, d, z.pend[d].ty, true)
      && var l := Grant(t, z.sys.lines, c, d, z.pend[d].ty, z.pend[d].noExcl);
         GrantsFit(t, Conc(z.sys.(lines := l), z.pend[c := Idle], z.serving[c := -1]), d)
  }

  lemma {:induction false} UnwindFits(t: Tree, z: Conc, c: int)
    requires Granted(t, z, c)
    ensures GrantsFit(t, z, c)
    decreases |t| - c
  {
    var d := z.serving[c];
    if c < d < |t| && z.pend[d].Req? {
      assert PendOk(z, d) && ChainOk(t, z, d);
      RequestFits(t, z, d);
      UnwindStep(t, z, c, d);
      var l := Grant(t, z.sys.lines, c, d, z.pend[d].ty, z.pend[d].noExcl);
      UnwindFits(t, Conc(z.sys.(lines := l), z.pend[c := Idle], z.serving[c := -1]), d);
    }
  }

  /** A pending GET fits the directory of a parent that holds what it asks for. */
  lemma RequestFits(t: Tree, z: Conc, d: int)
    requires WellSized(t, z) && Inv(t, z.sys) && 0 < d < |t| && IsGet(z.pend[d]) && PendOk(z, d)
    requires ParentHits(z.sys.lines[t[d]], z.pend[d].ty)
    ensures FitsParent(t, z.sys.lines, d, z.pend[d].ty, true)
  {
    assert Good(t, z.sys.lines, t[d], z.sys.latest);
    assert Good(t, z.sys.lines, d, z.sys.latest);
  }

  predicate AnswerFits(t: Tree, z: Conc, c: int)
    requires WellSized(t, z) && Enabled(t, z, Serve(c))
  {
    && (c > 0 ==> FitsParent(t, z.sys.lines, c, z.pend[c].ty, true))
    && GrantsFit(t, Answered(t, z, c), c)
  }

  lemma StepFits(t: Tree, z: Conc, a: Step)
    requires ConcInv(t, z) && Enabled(t, z, a) && MeetsFilter(t, z, a)
    ensures FiltersRight(t, z, a)
  {
    assert PendOk(z, a.c);
    assert Good(t, z.sys.lines, t[a.c], z.sys.latest);
    assert Good(t, z.sys.lines, a.c, z.sys.latest);
  }

  lemma ServeFits(t: Tree, z: Conc, c: int)
    requires ConcInv(t, z) && Enabled(t, z, Serve(c))
    ensures AnswerFits(t, z, c)
  {
    ServeGrants(t, z, c);
    UnwindFits(t, Answered(t, z, c), c);
    if c > 0 {
      assert PendOk(z, c);
      RequestFits(t, z, c);
    }
  }

  /** In every run the race filter never panics; it lets every GET through unchanged and turns a PUT into
      nothing or into the PUT that fits the sender's state; what it lets through meets every assert of the
      parent's directory, and so does every grant that an answer sets off further down; and a PUT always ends
      with its line invalid.
   */
  lemma EveryRunIsRaceFree(t: Tree, steps: seq<Step>, a: Step)
    requires Enabled(t, Run(t, steps), a)
    ensures MeetsFilter(t, Run(t, steps), a) ==> FiltersRight(t, Run(t, steps), a)
    ensures a.Serve? ==> AnswerFits(t, Run(t, steps), a.c)
    ensures a.PutStep? ==> Next(t, Run(t, steps), a).sys.lines[a.c].st == I
  {
    RunKeeps(t, steps);
    var z := Run(t, steps);
    if a.PutStep? {
      PutStepKeeps(t, z, a.c);
    }
    if a.Serve? {
      ServeFits(t, z, a.c);
    }
    if MeetsFilter(t, z, a) {
      StepFits(t, z, a);
    }
  }

  lemma CanProceed(t: Tree, z: Conc, n: int)
    requires ConcInv(t, z) && 0 <= n < |t| && z.pend[n].Req?
    ensures exists c :: 0 <= c <= n && (Enabled(t, z, Climb(c)) || Enabled(t, z, Serve(c)) || Enabled(t, z, PutStep(c)))
  {
    var c := n;
    while c > 0 && z.pend[t[c]].Req?
      invariant 0 <= c <= n && z.pend[c].Req?
    {
      c := t[c];
    }
    assert ChainOk(t, z, c) && PendOk(z, c);
    assert Enabled(t, z, Climb(c)) || Enabled(t, z, Serve(c)) || Enabled(t, z, PutStep(c));
  }

  /** Of one line's outstanding requests the one sent from nearest the root can always be taken up: requests wait
      for each other only upwards. Locks are the subject of module Locks. */
  lemma EveryRunCanProceed(t: Tree, steps: seq<Step>, n: int)
    requires 0 <= n < |t| && Run(t, steps).pend[n].Req?
    ensures var z := Run(t, steps);
      exists c :: 0 <= c <= n && (Enabled(t, z, Climb(c)) || Enabled(t, z, Serve(c)) || Enabled(t, z, PutStep(c)))
  {
    RunKeeps(t, steps);
    CanProceed(t, Run(t, steps), n);
  }
}
