/** Two rules that the DRAM controller does not keep in every run, and exactly when it does: a refresh waiting for
    the one before, and the spacing of ACTs between the banks of a rank.
 */
module DdrLimits {
  import opened Arith
  import opened DdrQueue
  import opened DdrTiming
  import ActWindow

  // ---------------------------------------------------------------- runs as the controller makes them

  /** The cycle of the latest demand. */
  function Now(events: seq<Demand>): int {
    if events == [] then 0 else events[|events| - 1].cur
  }

  /** Time does not go back, and no request is served while the data bus is taken too far ahead. */
  ghost predicate Scheduled(g: Tech, events: seq<Demand>)
    requires g.Ok()
  {
    events != [] ==>
      var before, e := events[..|events| - 1], events[|events| - 1];
      && Scheduled(g, before) && e.cur >= Now(before)
      && (e.Serve? ==> e.cur + g.tCL >= Run(g, before).0.minResp)
  }

  lemma OneMore(g: Tech, events: seq<Demand>, e: Demand)
    requires g.Ok()
    ensures Now(events + [e]) == e.cur
    ensures Scheduled(g, events + [e])
      <==> Scheduled(g, events) && e.cur >= Now(events) && (e.Serve? ==> e.cur + g.tCL >= Run(g, events).0.minResp)
    ensures var (t, trace) := Run(g, events);
      Run(g, events + [e])
        == if e.DoRefresh? then (Refresh(g, t, e.cur), trace + [RefOf(g, t, e.cur)])
           else if CanIssue(g, t, e.r, e.cur) then
             (Issue(g, t, e.r, e.cur, e.autoClose), trace + Issued(g, t, e.r, e.cur))
           else (t, trace)
  {
    assert (events + [e])[..|events|] == events;
  }

  // ---------------------------------------------------------------- refreshes

  /** No refresh starts before an earlier one is done. */
  ghost predicate RefreshesApart(trace: seq<Cmd>) {
    forall i, j | 0 <= i < j < |trace| && trace[i].Ref? && trace[j].Ref? :: trace[j].start >= trace[i].done
  }

  /** A refresh asked for at memory cycle cur, as a caller can tell: some request has been served since the last
      one, or that one is done by now. */
  predicate TimelyNow(g: Tech, trace: seq<Cmd>, cur: int) {
    trace == [] || !trace[|trace| - 1].Ref? || cur >= trace[|trace| - 1].done || g.tRP == 0
  }

  /** Every refresh of the run was timely. */
  ghost predicate Timely(g: Tech, events: seq<Demand>)
    requires g.Ok()
  {
    events != [] ==>
      var before, e := events[..|events| - 1], events[|events| - 1];
      Timely(g, before) && (e.DoRefresh? ==> TimelyNow(g, Run(g, before).1, e.cur))
  }

  ghost predicate AllDoneBy(trace: seq<Cmd>, at: int) {
    forall i | 0 <= i < |trace| && trace[i].Ref? :: trace[i].done <= at
  }

  /** Right after a refresh every bank waits for nothing but its end. */
  ghost predicate JustRefreshed(g: Tech, t: Timing, trace: seq<Cmd>) {
    trace != [] && trace[|trace| - 1].Ref? ==>
      var done := trace[|trace| - 1].done;
      && AllDoneBy(trace, done)
      && forall b | 0 <= b < |t.banks| :: t.banks[b].minPre == done - g.tRP && t.banks[b].lastCmd <= done - g.tRP
  }

  /** However early it is asked for, a refresh overlaps an earlier one by tRP at most. */
  lemma OverlapIsSmall(g: Tech, t: Timing, trace: seq<Cmd>, cur: int, i: int)
    requires Keeps(g, t, trace) && 0 <= i < |trace| && trace[i].Ref?
    ensures RefOf(g, t, cur).start >= trace[i].done - g.tRP
  {
    assert Covers(g, t, trace[i]);
    BusyBounds(t.banks, cur, 0);
  }

  lemma {:induction false} BusyAtMost(banks: seq<Bank>, cur: int, top: int)
    requires cur <= top && forall b | 0 <= b < |banks| :: banks[b].minPre <= top && banks[b].lastCmd <= top
    ensures Busy(banks, cur) <= top
  {
    if banks != [] {
      BusyAtMost(banks[..|banks| - 1], cur, top);
    }
  }

  lemma {:induction false} RunJustRefreshed(g: Tech, events: seq<Demand>)
    requires g.Ok()
    ensures var (t, trace) := Run(g, events); Keeps(g, t, trace) && JustRefreshed(g, t, trace)
  {
    EveryTraceIsSafe(g, events);
    if events != [] {
      var before, e := events[..|events| - 1], events[|events| - 1];
      RunJustRefreshed(g, before);
      var (t, trace) := Run(g, before);
      if e.DoRefresh? {
        RefreshSettles(g, t, trace, e.cur);
      }
    }
  }

  lemma RefreshSettles(g: Tech, t: Timing, trace: seq<Cmd>, cur: int)
    requires Keeps(g, t, trace)
    ensures JustRefreshed(g, Refresh(g, t, cur), trace + [RefOf(g, t, cur)])
  {
    var y := RefOf(g, t, cur);
    forall i | 0 <= i < |trace| && trace[i].Ref? ensures trace[i].done <= y.done {
      OverlapIsSmall(g, t, trace, cur, i);
    }
    forall b | 0 <= b < |t.banks| ensures t.banks[b].lastCmd <= y.done - g.tRP {
      BusyBounds(t.banks, cur, b);
    }
  }

  /** A refresh waits for all earlier ones if and only if it is timely. */
  lemma NextRefresh(g: Tech, events: seq<Demand>, cur: int)
    requires g.Ok()
    ensures var (t, trace) := Run(g, events); AllDoneBy(trace, RefOf(g, t, cur).start) <==> TimelyNow(g, trace, cur)
  {
    RunJustRefreshed(g, events);
    var (t, trace) := Run(g, events);
    var start := RefOf(g, t, cur).start;
    if trace != [] {
      var last := trace[|trace| - 1];
      if last.Ref? {
        BusyBounds(t.banks, cur, 0);
        if !TimelyNow(g, trace, cur) {
          BusyAtMost(t.banks, cur, Max(cur, last.done - g.tRP));
        }
      } else {
        ServedSince(g, t, trace, cur);
      }
    }
  }

  lemma ServedSince(g: Tech, t: Timing, trace: seq<Cmd>, cur: int)
    requires Keeps(g, t, trace) && trace != [] && !trace[|trace| - 1].Ref?
    ensures AllDoneBy(trace, RefOf(g, t, cur).start)
  {
    var n := |trace| - 1;
    assert Covers(g, t, trace[n]);
    BusyBounds(t.banks, cur, trace[n].bank);
    forall i | 0 <= i < |trace| && trace[i].Ref? ensures trace[i].done <= RefOf(g, t, cur).start {
      SafePairs(g, trace, i, n);
    }
  }

  /** In a run no refresh starts before an earlier one is done if and only if every refresh is asked for in time. */
  lemma {:induction false} RefreshesApartExactly(g: Tech, events: seq<Demand>)
    requires g.Ok()
    ensures RefreshesApart(Run(g, events).1) <==> Timely(g, events)
  {
    if events != [] {
      var before, e := events[..|events| - 1], events[|events| - 1];
      var (t, trace) := Run(g, before);
      RefreshesApartExactly(g, before);
      if e.DoRefresh? {
        NextRefresh(g, before, e.cur);
        RefAppended(trace, RefOf(g, t, e.cur));
      } else if CanIssue(g, t, e.r, e.cur) {
        NoRefAppended(trace, Issued(g, t, e.r, e.cur));
      }
    }
  }

  lemma RefAppended(trace: seq<Cmd>, y: Cmd)
    requires y.Ref?
    ensures RefreshesApart(trace + [y]) <==> RefreshesApart(trace) && AllDoneBy(trace, y.start)
  {
    var r := trace + [y];
    assert r[|trace|] == y;
    forall i | 0 <= i < |trace| ensures r[i] == trace[i] {
    }
    if RefreshesApart(r) {
      forall i, j | 0 <= i < j < |trace| && trace[i].Ref? && trace[j].Ref? ensures trace[j].start >= trace[i].done {
        assert r[j].start >= r[i].done;
      }
      forall i | 0 <= i < |trace| && trace[i].Ref? ensures trace[i].done <= y.start {
        assert r[|trace|].start >= r[i].done;
      }
    }
  }

  lemma NoRefAppended(trace: seq<Cmd>, more: seq<Cmd>)
    requires forall i | 0 <= i < |more| :: !more[i].Ref?
    ensures RefreshesApart(trace + more) <==> RefreshesApart(trace)
  {
    var r := trace + more;
    if RefreshesApart(r) {
      forall i, j | 0 <= i < j < |trace| && trace[i].Ref? && trace[j].Ref? ensures trace[j].start >= trace[i].done {
        assert r[i] == trace[i] && r[j] == trace[j];
      }
    }
  }

  // ---------------------------------------------------------------- ACTs of one rank

  predicate SameRank(g: Tech, x: Cmd, y: Cmd) {
    && x.Act? && y.Act? && 0 <= x.bank < |g.rankOf| && 0 <= y.bank < |g.rankOf|
    && g.rankOf[x.bank] == g.rankOf[y.bank]
  }

  /** Any two ACTs of a rank are at least tRRD apart, whichever is recorded first. */
  ghost predicate ActsApart(g: Tech, trace: seq<Cmd>) {
    forall i, j | 0 <= i < j < |trace| && SameRank(g, trace[i], trace[j]) ::
      trace[j].at >= trace[i].at + g.tRRD || trace[i].at >= trace[j].at + g.tRRD
  }

  ghost predicate NoSharedRank(g: Tech) {
    forall a, b | 0 <= a < b < |g.rankOf| :: g.rankOf[a] != g.rankOf[b]
  }

  /** The controller's runs keep tRRD within every rank if and only if there is nothing to keep: tRRD is 0, or every
      bank has a rank of its own. */
  lemma RrdExactly(g: Tech)
    requires g.Ok()
    ensures (forall events | Scheduled(g, events) :: ActsApart(g, Run(g, events).1))
      <==> g.tRRD == 0 || NoSharedRank(g)
  {
    if g.tRRD == 0 || NoSharedRank(g) {
      forall events | Scheduled(g, events) ensures ActsApart(g, Run(g, events).1) {
        ApartByBank(g, events);
      }
    } else {
      var a, b :| 0 <= a < b < |g.rankOf| && g.rankOf[a] == g.rankOf[b];
      var events := TwoAtOnce(g, a, b);
      assert !ActsApart(g, Run(g, events).1);
    }
  }

  lemma ApartByBank(g: Tech, events: seq<Demand>)
    requires g.Ok() && (g.tRRD == 0 || NoSharedRank(g))
    ensures ActsApart(g, Run(g, events).1)
  {
    EveryTraceIsSafe(g, events);
    var trace := Run(g, events).1;
    forall i, j | 0 <= i < j < |trace| && SameRank(g, trace[i], trace[j])
      ensures trace[j].at >= trace[i].at + g.tRRD || trace[i].at >= trace[j].at + g.tRRD
    {
      SafePairs(g, trace, i, j);
    }
  }

  lemma TwoServes(g: Tech, r0: Request, c0: int, r1: Request, c1: int) returns (events: seq<Demand>)
    requires CanIssue(g, Start(g), r0, c0) && CanIssue(g, Issue(g, Start(g), r0, c0, false), r1, c1)
    requires g.tBL < c0 <= c1 && c1 + g.tCL >= Issue(g, Start(g), r0, c0, false).minResp
    ensures Scheduled(g, events) && Now(events) == c1
    ensures forall i | 0 <= i < |events| :: events[i].Serve?
    ensures Run(g, events).0 == Issue(g, Issue(g, Start(g), r0, c0, false), r1, c1, false)
    ensures Run(g, events).1 == Issued(g, Start(g), r0, c0) + Issued(g, Issue(g, Start(g), r0, c0, false), r1, c1)
  {
    var e0, e1 := Demand.Serve(r0, c0, false), Demand.Serve(r1, c1, false);
    events := [] + [e0] + [e1];
    OneMore(g, [], e0);
    OneMore(g, [] + [e0], e1);
    assert [] + Issued(g, Start(g), r0, c0) == Issued(g, Start(g), r0, c0);
  }

  /** Two requests for two banks of a rank that arrive together, late enough to wait for nothing else, are activated
      in the same cycle, although the second is served only when the data bus is free for it. */
  lemma TwoAtOnce(g: Tech, a: int, b: int) returns (events: seq<Demand>)
    requires g.Ok() && g.tRRD > 0 && 0 <= a < b < |g.rankOf| && g.rankOf[a] == g.rankOf[b]
    ensures Scheduled(g, events) && !ActsApart(g, Run(g, events).1)
  {
    var arrival := g.tRP + g.tRRD + g.tFAW + g.tBL + 1;
    var cur := arrival + g.tRCD;
    var r0, r1 := Request(0, a, 7, false, 0, arrival), Request(1, b, 7, false, 0, arrival);
    var t := Issue(g, Start(g), r0, cur, false);
    assert ActCycle(g, Start(g), r0) == arrival;
    ActWindow.LastBelowIs(ActWindow.Zeros(4), arrival, 3);
    assert ActWindow.Added(ActWindow.Zeros(4), arrival)[0] == 0;
    assert ActCycle(g, t, r1) == arrival;
    assert t.minResp == cur + g.tCL + g.tBL;
    events := TwoServes(g, r0, cur, r1, cur + g.tBL);
    var trace := Run(g, events).1;
    assert trace[0] == Act(a, 7, arrival) && trace[2] == Act(b, 7, arrival);
    assert SameRank(g, trace[0], trace[2]);
  }

  // ---------------------------------------------------------------- one step

  ghost predicate HasAct(trace: seq<Cmd>, b: int, at: int) {
    exists i | 0 <= i < |trace| :: trace[i].Act? && trace[i].bank == b && trace[i].at == at
  }

  ghost predicate Activated(trace: seq<Cmd>, b: int) {
    exists i | 0 <= i < |trace| :: trace[i].Act? && trace[i].bank == b
  }

  /** lastAct is the cycle of the bank's latest ACT, if it has had one. */
  lemma {:induction false} LastActIs(g: Tech, events: seq<Demand>, b: int)
    requires g.Ok() && 0 <= b < |g.rankOf|
    ensures var (t, trace) := Run(g, events); Activated(trace, b) ==> HasAct(trace, b, t.banks[b].lastAct)
  {
    if events != [] {
      var before, e := events[..|events| - 1], events[|events| - 1];
      var (t, trace) := Run(g, before);
      LastActIs(g, before, b);
      if e.DoRefresh? {
        ActAppended(trace, [RefOf(g, t, e.cur)], b);
      } else if CanIssue(g, t, e.r, e.cur) {
        var more := Issued(g, t, e.r, e.cur);
        ActAppended(trace, more, b);
        if b == e.r.bank && !Hit(t.banks[b], e.r) {
          assert more[0] == ActOf(g, t, e.r);
          assert HasAct(trace + more, b, more[0].at);
        } else {
          assert !Activated(more, b);
        }
      }
    }
  }

  lemma ActAppended(trace: seq<Cmd>, more: seq<Cmd>, b: int)
    ensures forall at :: HasAct(trace, b, at) ==> HasAct(trace + more, b, at)
    ensures Activated(trace + more, b) ==> Activated(trace, b) || Activated(more, b)
    ensures forall i | 0 <= i < |more| && more[i].Act? && more[i].bank == b :: HasAct(trace + more, b, more[i].at)
  {
    var r := trace + more;
    forall at | HasAct(trace, b, at) ensures HasAct(r, b, at) {
      var i :| 0 <= i < |trace| && trace[i].Act? && trace[i].bank == b && trace[i].at == at;
      assert r[i] == trace[i];
    }
    if Activated(r, b) {
      var i :| 0 <= i < |r| && r[i].Act? && r[i].bank == b;
      assert i < |trace| ==> trace[i] == r[i];
      assert i >= |trace| ==> more[i - |trace|] == r[i];
    }
    forall i | 0 <= i < |more| && more[i].Act? && more[i].bank == b ensures HasAct(r, b, more[i].at) {
      assert r[|trace| + i] == more[i];
    }
  }

  /** The ACT comes at least tRRD after every earlier one of its rank. */
  ghost predicate FollowsRank(g: Tech, trace: seq<Cmd>, y: Cmd) {
    forall i | 0 <= i < |trace| && SameRank(g, trace[i], y) :: y.at >= trace[i].at + g.tRRD
  }

  /** What the controller would have to test: the new ACT is tRRD after the last one of each other bank of the
      rank that has been activated. */
  ghost predicate RankAllows(g: Tech, t: Timing, trace: seq<Cmd>, bank: int, at: int)
    requires t.Shaped(g) && 0 <= bank < |g.rankOf|
  {
    forall b | 0 <= b < |g.rankOf| && b != bank && g.rankOf[b] == g.rankOf[bank] && Activated(trace, b) ::
      at >= t.banks[b].lastAct + g.tRRD
  }

  /** In every run, a request's ACT keeps tRRD from all earlier ones of its rank if and only if the other banks'
      last ACTs allow it; its own bank always does. */
  lemma RrdGuard(g: Tech, events: seq<Demand>, r: Request)
    requires g.Ok() && 0 <= r.bank < |g.rankOf|
    ensures var (t, trace) := Run(g, events);
      FollowsRank(g, trace, ActOf(g, t, r)) <==> RankAllows(g, t, trace, r.bank, ActCycle(g, t, r))
  {
    EveryTraceIsSafe(g, events);
    var (t, trace) := Run(g, events);
    var y := ActOf(g, t, r);
    if RankAllows(g, t, trace, r.bank, y.at) {
      forall i | 0 <= i < |trace| && SameRank(g, trace[i], y) ensures y.at >= trace[i].at + g.tRRD {
        assert Covers(g, t, trace[i]);
        ActSpaced(g, t, r, trace[i]);
        assert Activated(trace, trace[i].bank);
      }
    }
    if FollowsRank(g, trace, y) {
      forall b | 0 <= b < |g.rankOf| && b != r.bank && g.rankOf[b] == g.rankOf[r.bank] && Activated(trace, b)
        ensures y.at >= t.banks[b].lastAct + g.tRRD
      {
        LastActIs(g, events, b);
        var i :| 0 <= i < |trace| && trace[i].Act? && trace[i].bank == b && trace[i].at == t.banks[b].lastAct;
        assert SameRank(g, trace[i], y);
      }
    }
  }
}
