/** Refreshes at their interval. A refresh waits for the banks, and the next one is asked for a fixed time after it was
    asked for, however long it had to wait; so the interval has to cover the longest wait as well.
 */
module DdrRefresh {
  import ActWindow
  import opened Arith
  import opened DdrClock
  import opened DdrLimits
  import opened DdrQueue
  import opened DdrTiming

  /** The longest that a request served at some cycle may keep its bank from being refreshed. */
  function Tail(g: Tech): int {
    Max(g.tCL + g.tBL + g.tWR, Max(g.tCL + g.tWTR + g.tRTP, g.tRAS - g.tRCD))
  }

  /** Any two refreshes are asked for at least gap cycles apart. */
  ghost predicate Every(events: seq<Demand>, gap: int) {
    forall i, j | 0 <= i < j < |events| && events[i].DoRefresh? && events[j].DoRefresh? ::
      events[j].cur >= events[i].cur + gap
  }

  // ---------------------------------------------------------------- a long enough interval

  /** The index of the last refresh, or -1. */
  function LastRefresh(events: seq<Demand>): (i: int)
    ensures -1 <= i < |events| && (i >= 0 ==> events[i].DoRefresh?)
  {
    if events == [] then -1
    else if events[|events| - 1].DoRefresh? then |events| - 1
    else LastRefresh(events[..|events| - 1])
  }

  /** No bank of t waits beyond top, and none may be precharged before tRAS. */
  ghost predicate Within(g: Tech, t: Timing, top: int) {
    forall b | 0 <= b < |t.banks| :: BankWithin(g, t.banks[b], top)
  }

  ghost predicate BankWithin(g: Tech, b: Bank, top: int) {
    b.minPre <= top && b.lastCmd <= top && (b.open ==> b.lastAct + g.tRAS <= b.minPre)
  }

  lemma IssueWithin(g: Tech, t: Timing, r: Request, cur: int, autoClose: bool, top: int)
    requires CanIssue(g, t, r, cur) && cur + g.tCL >= t.minResp && Within(g, t, top) && top >= cur + Tail(g)
    ensures Within(g, Issue(g, t, r, cur, autoClose), top)
  {
    var b := t.banks[r.bank];
    assert BankWithin(g, b, top);
    var cmd := CmdCycle(g, t, r, cur);
    assert cmd <= cur + g.tCL + g.tWTR && (r.write ==> cmd == cur);
    assert !Hit(b, r) ==> ActCycle(g, t, r) <= cur - g.tRCD && PreCycle(b, r) <= cur - g.tRCD;
  }

  /** What holds while refreshes come rarely enough: all refreshes are done by `done`, which the interval covers, and
      no bank waits longer than the last request or refresh makes it. */
  ghost predicate Settled(g: Tech, events: seq<Demand>, gap: int, done: int)
    requires g.Ok()
  {
    var (t, trace) := Run(g, events);
    && (LastRefresh(events) >= 0 ==> done <= events[LastRefresh(events)].cur + gap)
    && Within(g, t, Max(Now(events) + Tail(g), done - g.tRP))
    && (trace != [] && trace[|trace| - 1].Ref? ==> LastRefresh(events) >= 0 && trace[|trace| - 1].done == done)
    && (LastRefresh(events) < 0 ==> done == 0) && Now(events) >= 0
  }

  lemma EveryPrefix(events: seq<Demand>, e: Demand, gap: int)
    requires Every(events + [e], gap)
    ensures Every(events, gap)
    ensures e.DoRefresh? && LastRefresh(events) >= 0 ==> e.cur >= events[LastRefresh(events)].cur + gap
  {
    var all := events + [e];
    assert forall i | 0 <= i < |events| :: all[i] == events[i];
    assert all[|events|] == e;
  }

  lemma ServeSettles(g: Tech, events: seq<Demand>, e: Demand, gap: int, done: int)
    requires g.Ok() && e.Serve? && Scheduled(g, events + [e]) && Settled(g, events, gap, done)
    ensures Settled(g, events + [e], gap, done)
  {
    OneMore(g, events, e);
    assert (events + [e])[..|events|] == events;
    var (t, trace) := Run(g, events);
    var top := Max(e.cur + Tail(g), done - g.tRP);
    assert Within(g, t, top);
    if CanIssue(g, t, e.r, e.cur) {
      IssueWithin(g, t, e.r, e.cur, e.autoClose, top);
    }
  }

  lemma RefreshSettlesBanks(g: Tech, events: seq<Demand>, cur: int, gap: int, done: int) returns (done': int)
    requires g.Ok() && Scheduled(g, events + [DoRefresh(cur)]) && Settled(g, events, gap, done)
    requires cur >= done && gap >= Tail(g) + g.tRFC
    ensures Settled(g, events + [DoRefresh(cur)], gap, done')
  {
    var e := DoRefresh(cur);
    OneMore(g, events, e);
    assert (events + [e])[..|events|] == events;
    var (t, trace) := Run(g, events);
    var top := cur + Tail(g);
    forall b | 0 <= b < |t.banks| ensures t.banks[b].minPre <= top && t.banks[b].lastCmd <= top {
      assert BankWithin(g, t.banks[b], Max(Now(events) + Tail(g), done - g.tRP));
    }
    BusyAtMost(t.banks, cur, top);
    done' := RefOf(g, t, cur).done;
    forall b | 0 <= b < |t.banks| ensures t.banks[b].lastCmd <= done' - g.tRP {
      BusyBounds(t.banks, cur, b);
    }
  }

  /** If refreshes are asked for at least tRFC and the longest wait apart, each is done when the next is asked for. */
  lemma {:induction false} RareEnough(g: Tech, events: seq<Demand>, gap: int) returns (done: int)
    requires g.Ok() && Scheduled(g, events) && Every(events, gap) && gap >= Tail(g) + g.tRFC
    ensures Settled(g, events, gap, done) && Timely(g, events)
  {
    if events == [] {
      done := 0;
    } else {
      var before, e := events[..|events| - 1], events[|events| - 1];
      assert before + [e] == events;
      EveryPrefix(before, e, gap);
      OneMore(g, before, e);
      done := RareEnough(g, before, gap);
      assert e.DoRefresh? ==> e.cur >= done;
      TimelyMore(g, before, e, gap, done);
      if e.Serve? {
        ServeSettles(g, before, e, gap, done);
      } else {
        assert e == DoRefresh(e.cur);
        done := RefreshSettlesBanks(g, before, e.cur, gap, done);
      }
    }
  }

  lemma TimelyMore(g: Tech, before: seq<Demand>, e: Demand, gap: int, done: int)
    requires g.Ok() && Settled(g, before, gap, done) && Timely(g, before) && (e.DoRefresh? ==> e.cur >= done)
    ensures Timely(g, before + [e])
  {
    assert (before + [e])[..|before|] == before;
  }

  // ---------------------------------------------------------------- a shorter interval

  /** A refresh that comes right after a request has to wait for its bank, and the next one, asked for gap cycles
      later, does not wait for it. */
  lemma Overlap(g: Tech, events: seq<Demand>, b: int, gap: nat) returns (run: seq<Demand>)
    requires g.Ok() && Scheduled(g, events) && forall i | 0 <= i < |events| :: events[i].Serve?
    requires 0 <= b < |g.rankOf| && Run(g, events).0.banks[b].minPre >= Now(events) + Tail(g)
    requires g.tRP > 0 && gap < Tail(g) + g.tRFC
    ensures Scheduled(g, run) && Every(run, gap) && !RefreshesApart(Run(g, run).1)
  {
    var c := Now(events);
    var e0, e1 := DoRefresh(c), DoRefresh(c + gap);
    OneMore(g, events, e0);
    OneMore(g, events + [e0], e1);
    run := events + [e0] + [e1];
    var n := |events|;
    assert run[n] == e0 && run[n + 1] == e1 && forall i | 0 <= i < n :: run[i] == events[i];
    BusyBounds(Run(g, events).0.banks, c, b);
    assert !TimelyNow(g, Run(g, events + [e0]).1, c + gap);
    assert run[..n + 1] == events + [e0];
    RefreshesApartExactly(g, run);
  }

  /** A write that is served as soon as its row is open, late enough to wait for nothing else. */
  function Late(g: Tech): Request {
    Request(0, 0, 7, true, 0, g.tRP + g.tRRD + g.tFAW + g.tBL + 1)
  }

  lemma WriteWaits(g: Tech) returns (events: seq<Demand>)
    requires g.Ok()
    ensures Scheduled(g, events) && forall i | 0 <= i < |events| :: events[i].Serve?
    ensures Run(g, events).0.banks[0].minPre
      >= Now(events) + Max(g.tCL + g.tBL + g.tWR, g.tRAS - g.tRCD)
  {
    var r := Late(g);
    var c := r.arrival + g.tRCD;
    assert ActCycle(g, Start(g), r) == r.arrival;
    OneMore(g, [], Demand.Serve(r, c, false));
    events := [] + [Demand.Serve(r, c, false)];
  }

  /** A read of the same row, served as soon as the data bus allows, has to wait for the turnaround. */
  lemma ReadWaits(g: Tech) returns (events: seq<Demand>)
    requires g.Ok() && g.tBL > 0
    ensures Scheduled(g, events) && forall i | 0 <= i < |events| :: events[i].Serve?
    ensures Run(g, events).0.banks[0].minPre >= Now(events) + g.tCL + g.tWTR + g.tRTP
  {
    var r := Late(g);
    var c := r.arrival + g.tRCD;
    assert ActCycle(g, Start(g), r) == r.arrival;
    events := TwoServes(g, r, c, r.(write := false), c + g.tBL);
  }

  /** Refreshes that are asked for at least gap cycles apart never overlap, in any run that the controller makes, if
      and only if gap covers a refresh and the longest wait before it. */
  lemma IntervalExactly(g: Tech, gap: nat)
    requires g.Ok() && g.tBL > 0 && g.tRP > 0
    ensures (forall events | Scheduled(g, events) && Every(events, gap) :: RefreshesApart(Run(g, events).1))
      <==> gap >= Tail(g) + g.tRFC
  {
    if gap >= Tail(g) + g.tRFC {
      forall events | Scheduled(g, events) && Every(events, gap) ensures RefreshesApart(Run(g, events).1) {
        var done := RareEnough(g, events, gap);
        RefreshesApartExactly(g, events);
      }
    } else {
      var events;
      if Tail(g) == g.tCL + g.tWTR + g.tRTP {
        events := ReadWaits(g);
      } else {
        events := WriteWaits(g);
      }
      var run := Overlap(g, events, 0, gap);
      assert !RefreshesApart(Run(g, run).1);
    }
  }

  // ---------------------------------------------------------------- the interval of the refresh event

  /** An event that requeues itself tREFI memory cycles ahead, in system cycles, is at least that far apart. */
  lemma EventEvery(c: Clocks, tREFI: nat, s: int)
    requires c.Ok() && s >= 0
    ensures c.SysToMem(s + c.MemToSys(tREFI)) >= c.SysToMem(s) + tREFI
  {
    var step := c.MemToSys(tREFI);
    DivMod((tREFI + 1) * c.sys, c.mem);
    assert (tREFI + 1) * c.sys == tREFI * c.sys + c.sys;
    assert c.mem * step == step * c.mem >= tREFI * c.sys;
    assert (s + step) * c.mem == s * c.mem + step * c.mem;
    DivMod(s * c.mem, c.sys);
    DivMono(s * c.mem + tREFI * c.sys, (s + step) * c.mem, c.sys);
    var q := s * c.mem / c.sys;
    assert c.sys * (q + tREFI) == c.sys * q + tREFI * c.sys;
    assert c.sys * (q + tREFI + 1) == c.sys * (q + tREFI) + c.sys;
    DivIs(s * c.mem + tREFI * c.sys, c.sys, q + tREFI);
  }

  datatype Technology = DDR4_2400_CL17 | DDR3_1333_CL10 | DDR3_1066_CL7 | DDR3_1066_CL8

  /** The data burst of a line, for line sizes that are a power of two. */
  function Burst(lineSize: nat): nat {
    if lineSize == 32 then 2 else lineSize * 4 / 64
  }

  function Device(k: Technology, lineSize: nat, ranks: nat, rankOf: seq<int>): Tech {
    var bl := Burst(lineSize);
    match k
    case DDR4_2400_CL17 => Tech(bl, 17, 17, 9, 17, 4, 38, 28, 6, 18, 260, ranks, rankOf)
    case DDR3_1333_CL10 => Tech(bl, 10, 10, 5, 10, 4, 24, 20, 5, 10, 74, ranks, rankOf)
    case DDR3_1066_CL7 => Tech(bl, 7, 7, 4, 7, 4, 18, 18, 4, 7, 59, ranks, rankOf)
    case DDR3_1066_CL8 => Tech(bl, 8, 8, 4, 8, 4, 20, 20, 4, 8, 59, ranks, rankOf)
  }

  function Interval(k: Technology): nat {
    match k
    case DDR4_2400_CL17 => 7800
    case DDR3_1333_CL10 => 5200
    case DDR3_1066_CL7 => 4160
    case DDR3_1066_CL8 => 4160
  }

  /** With every technology's own interval, and lines of up to 32KB, no two refreshes overlap. */
  lemma TablesKeepApart(k: Technology, lineSize: nat, ranks: nat, rankOf: seq<int>, events: seq<Demand>)
    requires lineSize <= 32768 && Device(k, lineSize, ranks, rankOf).Ok()
    requires Scheduled(Device(k, lineSize, ranks, rankOf), events) && Every(events, Interval(k))
    ensures RefreshesApart(Run(Device(k, lineSize, ranks, rankOf), events).1)
  {
    var g := Device(k, lineSize, ranks, rankOf);
    assert g.tBL <= 2048;
    var done := RareEnough(g, events, Interval(k));
    RefreshesApartExactly(g, events);
  }
}
