/** Two runs of the DRAM controller, from power-on, in which the next try is not planned as its comments have it: one
    that comes too early for any request, and one that comes too late for a request that is ready.
 */
module DdrRuns {
  import opened Arith
  import opened DdrQueue
  import opened DdrTiming
  import opened DdrClock
  import opened DdrLanes
  import opened DdrSteps
  import opened DdrRest
  import opened DdrController

  // ---------------------------------------------------------------- an early try

  /** The first cycle at which a lone request of an idle controller can be served. */
  function LoneTry(s: Setup, r: Request, cur: int): int
    requires s.g.Ok() && 0 <= r.bank < |s.g.rankOf|
  {
    Max(Max(cur, 1), FindMinCmdCycle(s.g, Start(s.g), r.(arrival := cur)))
  }

  function Lone(r: Request, cur: int): Request {
    r.(arrival := cur, hitSeq := 0)
  }

  lemma LoneAdded(s: Setup, r: Request, cur: int)
    requires s.g.Ok() && 0 <= r.bank < |s.g.rankOf|
    ensures var empty := Fresh(s).rd;
      AddedTo(empty, r.(arrival := cur), s.limit, RowOf(Start(s.g).banks[r.bank]))
        == Lane([Lone(r, cur)], empty.lists[r.bank := [Lone(r, cur)]])
  {
    var empty, q := Fresh(s).rd, Lone(r, cur);
    assert HitSeq([], r.row, s.limit, RowOf(Start(s.g).banks[r.bank])) == 0;
    assert empty.queue + [q] == [q];
    assert Insert([], r.(arrival := cur), s.limit, RowOf(Start(s.g).banks[r.bank])) == [q];
  }

  /** Its row is opened and its command issued with no further delay. */
  lemma LoneIssued(s: Setup, r: Request, cur: int, autoClose: bool)
    requires s.g.Ok() && 0 <= r.bank < |s.g.rankOf| && cur > s.g.tBL
    ensures FindMinCmdCycle(s.g, Start(s.g), Lone(r, cur)) == LoneTry(s, r, cur)
    ensures var t' := Issue(s.g, Start(s.g), Lone(r, cur), LoneTry(s, r, cur), autoClose);
      && t'.minResp == LoneTry(s, r, cur) + s.g.tCL + s.g.tBL
      && forall b | 0 <= b < |s.g.rankOf| && b != r.bank :: t'.banks[b] == Start(s.g).banks[b]
  {
  }

  /** It is served then, and nothing is left. */
  lemma LoneServed(s: Setup, r: Request, cur: int, served: Served, mid: Core)
    requires s.g.Ok() && s.clocks.Ok() && 0 <= r.bank < |s.g.rankOf| && cur > s.g.tBL
    requires Tried(s, Queued(s, Fresh(s), r, cur), LoneTry(s, r, cur), served, mid)
    ensures Unused(mid.rd, |s.g.rankOf|) && Unused(mid.wr, |s.g.rankOf|) && mid.timing.Shaped(s.g)
    ensures mid.timing.minResp == LoneTry(s, r, cur) + s.g.tCL + s.g.tBL
    ensures forall b | 0 <= b < |s.g.rankOf| && b != r.bank :: mid.timing.banks[b] == Start(s.g).banks[b]
    ensures exists ac :: mid.timing == Issue(s.g, Start(s.g), Lone(r, cur), LoneTry(s, r, cur), ac)
  {
    var x, q, c := Queued(s, Fresh(s), r, cur), Lone(r, cur), LoneTry(s, r, cur);
    LoneQueued(s, r, cur);
    LoneIssued(s, r, cur, false);
    if s.deferred && r.write {
      LoneTaken(s, x, x.wr, q, c, served, mid, mid.wr);
    } else {
      LoneTaken(s, x, x.rd, q, c, served, mid, mid.rd);
    }
    var ac :| mid.timing == Issue(s.g, x.timing, q, c, ac);
    LoneIssued(s, r, cur, ac);
  }

  /** The request is alone in its lane, which is the favoured one. */
  lemma LoneQueued(s: Setup, r: Request, cur: int)
    requires s.g.Ok() && s.clocks.Ok() && 0 <= r.bank < |s.g.rankOf| && cur > s.g.tBL
    ensures var x, q, n := Queued(s, Fresh(s), r, cur), Lone(r, cur), |s.g.rankOf|;
      && x.timing == Start(s.g) && x.Pending() && x.FavoursWrites(s.depth) == (s.deferred && r.write)
      && (if s.deferred && r.write then OnlyOne(x.wr, q, n) && Unused(x.rd, n)
          else OnlyOne(x.rd, q, n) && Unused(x.wr, n))
      && LoneTry(s, r, cur) + s.g.tCL >= x.timing.minResp
  {
    LoneAdded(s, r, cur);
  }

  ghost predicate OnlyOne(lane: Lane, q: Request, n: int) {
    && lane.queue == [q] && |lane.lists| == n && 0 <= q.bank < n && lane.lists[q.bank] == [q]
    && forall b | 0 <= b < n && b != q.bank :: lane.lists[b] == []
  }

  ghost predicate Unused(lane: Lane, n: int) {
    lane.queue == [] && |lane.lists| == n && forall b | 0 <= b < n :: lane.lists[b] == []
  }

  lemma LoneTaken(s: Setup, x: Core, lane: Lane, q: Request, c: int, served: Served, mid: Core, lane': Lane)
    requires s.g.Ok() && x.timing.Shaped(s.g) && OnlyOne(lane, q, |s.g.rankOf|)
    requires FindMinCmdCycle(s.g, x.timing, q) <= c
    requires ServedOk(s.g, x.timing, x.trace, lane, c, s.closed, served, mid.timing, mid.trace, lane')
    ensures Unused(lane', |s.g.rankOf|)
    ensures exists ac :: mid.timing == Issue(s.g, x.timing, q, c, ac)
  {
    assert Ready(s.g, x.timing, lane.lists, lane.queue[0], c);
    assert served == One(0);
  }

  /** A request that overflowed meanwhile is then tried at once, although its bank's row has still to be opened. */
  lemma TriedAtOnce(s: Setup, r1: Request, cur: int, mid: Core, next: When, y: Core, ovf: Queue, next': When)
    requires s.g.Ok() && 0 <= r1.bank < |s.g.rankOf| && s.depth == 1 && mid.timing.Shaped(s.g)
    requires Unused(mid.rd, |s.g.rankOf|) && Unused(mid.wr, |s.g.rankOf|) && next == Never
    requires mid.timing.minResp == cur + s.g.tCL + s.g.tBL && !mid.timing.banks[r1.bank].open
    requires Refilled(s, mid, [r1], cur, next, y, ovf, next')
    ensures ovf == [] && y.timing == mid.timing && next' == At(cur)
    ensures var w := PatientTry(s.g, y.timing, r1.(arrival := cur), true, cur, next);
            w.At? && w.c >= cur + s.g.tRCD
  {
  }

  /** With room for one request, r0 comes in, and r1 overflows. */
  method TwoArrive(setup: Setup, r0: Request, r1: Request, sysCycle: int) returns (m: DDRMemory)
    requires setup.g.Ok() && setup.clocks.Ok() && setup.depth == 1 && sysCycle >= 0
    requires 0 <= r0.bank < |setup.g.rankOf| && 0 <= r1.bank < |setup.g.rankOf|
    ensures fresh(m) && m.Valid() && m.s == setup
    ensures var cur := setup.clocks.SysToMem(sysCycle);
      && m.Snap() == Queued(setup, Fresh(setup), r0, cur) && m.overflowQueue == [r1.(arrival := cur)]
      && m.nextSchedCycle == At(LoneTry(setup, r0, cur))
  {
    m := new DDRMemory(setup);
    m.Enqueue(r0, sysCycle);
    ghost var cur := setup.clocks.SysToMem(sysCycle);
    assert m.nextSchedCycle == At(LoneTry(setup, r0, cur));
    m.Enqueue(r1, sysCycle);
  }

  lemma FromSystemStart(k: Clocks, at: int)
    requires k.Ok() && k.SysToMem(at) >= 1
    ensures at >= 0
  {
    if at < 0 {
      SysToMemMonotone(k, at, -1);
      var n: int := k.mem;
      DivIs(-n, k.sys, -1);
    }
  }

  /** The scheduling event arrives: r0 is served, r1, for another bank, is taken in, and the next try is planned for
      this very cycle, tRCD or more before r1's command. */
  method OverflowTriesEarly(setup: Setup, r0: Request, r1: Request, sysCycle: int) returns (m: DDRMemory, at: int)
    requires setup.g.Ok() && setup.clocks.Ok() && setup.depth == 1
    requires 0 <= r0.bank < |setup.g.rankOf| && 0 <= r1.bank < |setup.g.rankOf| && r0.bank != r1.bank
    requires sysCycle >= 0 && setup.clocks.SysToMem(sysCycle) > setup.g.tBL
    ensures m.Valid() && m.s == setup && m.overflowQueue == []
    ensures m.timing.Shaped(setup.g)
    ensures var cur := setup.clocks.SysToMem(at);
      && m.nextSchedCycle == At(cur)
      && var w := PatientTry(setup.g, m.timing, r1.(arrival := cur), true, cur, Never);
         w.At? && w.c >= cur + setup.g.tRCD
  {
    m := TwoArrive(setup, r0, r1, sysCycle);
    ghost var cur, x := setup.clocks.SysToMem(sysCycle), m.Snap();
    m.OneLiveEvent();
    at := m.evCycle[m.nextSchedEvent];
    FromSystemStart(setup.clocks, at);
    ghost var served, mid, next := m.Simulate(m.nextSchedEvent, at);
    LoneServed(setup, r0, cur, served, mid);
    TriedAtOnce(setup, r1.(arrival := cur), LoneTry(setup, r0, cur), mid, next, m.Snap(), m.overflowQueue,
      m.nextSchedCycle);
  }

  // ---------------------------------------------------------------- a late try

  /** With room for two: r1 is served, r2 waits for r1's bank, and w1 and w2 go to a bank of another rank. */
  ghost predicate Case(s: Setup, r1: Request, r2: Request, w1: Request, w2: Request, cur: int) {
    && s.g.Ok() && s.clocks.Ok() && s.depth == 2 && s.deferred
    && 0 <= r1.bank < |s.g.rankOf| && 0 <= w1.bank < |s.g.rankOf| && s.g.rankOf[w1.bank] != s.g.rankOf[r1.bank]
    && r2.bank == r1.bank && r2.row != r1.row && w2.bank == w1.bank
    && !r1.write && !r2.write && w1.write && w2.write
    && s.g.tBL <= s.g.tRCD < s.g.tRAS + s.g.tRP
    && cur > s.g.tBL && cur >= s.g.tRP && cur >= s.g.tRRD && cur >= s.g.tFAW
  }

  /** What serving r1 at its first try leaves. */
  ghost predicate OneServed(s: Setup, r1: Request, w1: Request, cur: int, x: Core) {
    && s.g.Ok() && x.timing.Shaped(s.g) && 0 <= r1.bank < |s.g.rankOf| && 0 <= w1.bank < |s.g.rankOf|
    && Unused(x.rd, |s.g.rankOf|) && Unused(x.wr, |s.g.rankOf|)
    && x.timing.minResp == cur + s.g.tRCD + s.g.tCL + s.g.tBL && !x.timing.lastWrite
    && x.timing.banks[r1.bank].minPre >= cur + s.g.tRAS
    && (x.timing.banks[r1.bank].open ==> x.timing.banks[r1.bank].openRow == r1.row)
    && x.timing.banks[w1.bank] == Start(s.g).banks[w1.bank]
    && x.timing.win[s.g.rankOf[w1.bank]] == Start(s.g).win[s.g.rankOf[w1.bank]]
  }

  lemma FirstIssued(s: Setup, r1: Request, r2: Request, w1: Request, w2: Request, cur: int, ac: bool)
    requires Case(s, r1, r2, w1, w2, cur)
    ensures var g, c := s.g, cur + s.g.tRCD;
            var t' := Issue(g, Start(g), Lone(r1, cur), c, ac);
      && t'.minResp == c + g.tCL + g.tBL && !t'.lastWrite
      && t'.banks[r1.bank].minPre >= cur + g.tRAS && t'.banks[r1.bank].openRow == r1.row
      && t'.banks[w1.bank] == Start(g).banks[w1.bank]
      && t'.win[g.rankOf[w1.bank]] == Start(g).win[g.rankOf[w1.bank]]
  {
  }

  lemma FirstTry(s: Setup, r1: Request, r2: Request, w1: Request, w2: Request, cur: int)
    requires Case(s, r1, r2, w1, w2, cur)
    ensures LoneTry(s, r1, cur) == cur + s.g.tRCD
  {
  }

  lemma FirstServed(s: Setup, r1: Request, r2: Request, w1: Request, w2: Request, cur: int, served: Served, mid: Core)
    requires Case(s, r1, r2, w1, w2, cur)
    requires Tried(s, Queued(s, Fresh(s), r1, cur), LoneTry(s, r1, cur), served, mid)
    ensures OneServed(s, r1, w1, cur, mid)
  {
    FirstTry(s, r1, r2, w1, w2, cur);
    LoneServed(s, r1, cur, served, mid);
    var ac :| mid.timing == Issue(s.g, Start(s.g), Lone(r1, cur), LoneTry(s, r1, cur), ac);
    FirstIssued(s, r1, r2, w1, w2, cur, ac);
  }

  /** r2 and w1 wait, w1 for cycle w, r2 for a later one. */
  ghost predicate TwoWait(s: Setup, r2: Request, w1: Request, cur: int, x: Core) {
    && s.g.Ok() && x.timing.Shaped(s.g) && 0 <= r2.bank < |s.g.rankOf| && 0 <= w1.bank < |s.g.rankOf|
    && OnlyOne(x.rd, r2, |s.g.rankOf|) && OnlyOne(x.wr, w1, |s.g.rankOf|)
    && x.timing.minResp == cur + s.g.tRCD + s.g.tCL + s.g.tBL && !x.timing.lastWrite
    && FindMinCmdCycle(s.g, x.timing, w1) == cur + 2 * s.g.tRCD < FindMinCmdCycle(s.g, x.timing, r2)
  }

  lemma AddedAlone(lane: Lane, r: Request, limit: int, b: RowState, n: int)
    requires Unused(lane, n) && 0 <= r.bank < n
    ensures OnlyOne(AddedTo(lane, r, limit, b), r.(hitSeq := HitSeq([], r.row, limit, b)), n)
  {
    assert lane.lists[r.bank] == [];
    assert Insert([], r, limit, b) == [r.(hitSeq := HitSeq([], r.row, limit, b))];
    assert lane.queue + [r.(hitSeq := HitSeq([], r.row, limit, b))] == [r.(hitSeq := HitSeq([], r.row, limit, b))];
  }

  /** r2 waits alone, for a cycle c after w1's. */
  ghost predicate OneWaits(s: Setup, r1: Request, q2: Request, w1: Request, cur: int, x: Core, c: int) {
    && s.g.Ok() && x.timing.Shaped(s.g) && 0 <= r1.bank < |s.g.rankOf| && 0 <= w1.bank < |s.g.rankOf|
    && q2.bank == r1.bank && OnlyOne(x.rd, q2, |s.g.rankOf|) && Unused(x.wr, |s.g.rankOf|)
    && x.timing.minResp == cur + s.g.tRCD + s.g.tCL + s.g.tBL && !x.timing.lastWrite
    && x.timing.banks[w1.bank] == Start(s.g).banks[w1.bank]
    && x.timing.win[s.g.rankOf[w1.bank]] == Start(s.g).win[s.g.rankOf[w1.bank]]
    && FindMinCmdCycle(s.g, x.timing, q2) == c > cur + 2 * s.g.tRCD
  }

  lemma SecondWaits(s: Setup, r1: Request, r2: Request, w1: Request, w2: Request, cur: int, x: Core, now: int)
      returns (q2: Request, c: int)
    requires Case(s, r1, r2, w1, w2, cur) && OneServed(s, r1, w1, cur, x) && now == cur + s.g.tRCD
    ensures FirstOfBank(s, x, r2) && OneWaits(s, r1, q2, w1, cur, Queued(s, x, r2, now), c)
    ensures PatientTry(s.g, x.timing, r2.(arrival := now), true, now, Never) == At(c)
  {
    var q, b := r2.(arrival := now), RowOf(x.timing.banks[r2.bank]);
    AddedAlone(x.rd, q, s.limit, b, |s.g.rankOf|);
    q2 := q.(hitSeq := HitSeq([], q.row, s.limit, b));
    c := FindMinCmdCycle(s.g, x.timing, q2);
  }

  lemma ThirdWaits(s: Setup, r1: Request, r2: Request, w1: Request, w2: Request, cur: int, x: Core, now: int,
                   q2: Request, c: int)
      returns (q1: Request)
    requires Case(s, r1, r2, w1, w2, cur) && OneWaits(s, r1, q2, w1, cur, x, c) && now == cur + s.g.tRCD
    ensures q1.bank == w1.bank && FirstOfBank(s, x, w1)
    ensures TwoWait(s, q2, q1, cur, Queued(s, x, w1, now))
    ensures PatientTry(s.g, x.timing, w1.(arrival := now), true, now, At(c)) == At(cur + 2 * s.g.tRCD)
  {
    var q, b := w1.(arrival := now), RowOf(x.timing.banks[w1.bank]);
    AddedAlone(x.wr, q, s.limit, b, |s.g.rankOf|);
    q1 := q.(hitSeq := HitSeq([], q.row, s.limit, b));
  }

  /** The try for w1 finds the reads favoured, and none of them ready. */
  lemma NothingServed(s: Setup, r2: Request, w1: Request, cur: int, x: Core, c: int, served: Served, mid: Core,
                      next: When, y: Core, ovf: Queue, next': When)
    requires TwoWait(s, r2, w1, cur, x) && s.depth == 2 && s.g.tBL <= s.g.tRCD && c == cur + 2 * s.g.tRCD
    requires Ticked(s, x, [], c, served, mid, next, y, ovf, next')
    ensures y == x && ovf == [] && next' == At(FindMinCmdCycle(s.g, x.timing, r2))
  {
    assert !x.FavoursWrites(s.depth);
    assert served == None;
    assert x.responses + [] == x.responses;
    assert First(x.rd.lists, x.rd.queue[0]);
  }

  /** One more write makes writes favoured. The first of them is ready, but the next try is planned for r2. */
  lemma TooLate(s: Setup, r2: Request, w1: Request, w2: Request, cur: int, x: Core, y: Core, c: int, next: When)
    requires TwoWait(s, r2, w1, cur, x) && s.depth == 2 && s.g.tBL <= s.g.tRCD && c == cur + 2 * s.g.tRCD
    requires s.deferred && w2.write && w2.bank == w1.bank && Later(next, c)
    requires s.clocks.Ok() && y == Queued(s, x, w2, c) && y.Ok(s)
    ensures !Quiet(s, y, c) && !Rests(s, y, next)
  {
    var b := RowOf(x.timing.banks[w2.bank]);
    FrontStays(x.wr.lists[w2.bank], w2.(arrival := c), s.limit, b);
    assert y.wr.queue[0] == w1 && First(y.wr.lists, y.wr.queue[0]);
    assert Ready(s.g, y.timing, y.wr.lists, y.wr.queue[0], c);
  }

  method ServeFirst(setup: Setup, r1: Request, r2: Request, w1: Request, w2: Request, sysCycle: int)
    returns (m: DDRMemory, at: int)
    requires sysCycle >= 0 && setup.clocks.Ok() && Case(setup, r1, r2, w1, w2, setup.clocks.SysToMem(sysCycle))
    ensures fresh(m) && m.Valid() && m.s == setup && m.overflowQueue == [] && m.nextSchedCycle == Never && at >= 0
    ensures var cur := setup.clocks.SysToMem(sysCycle);
            setup.clocks.SysToMem(at) == cur + setup.g.tRCD && OneServed(setup, r1, w1, cur, m.Snap())
  {
    m := new DDRMemory(setup);
    m.Enqueue(r1, sysCycle);
    ghost var cur := setup.clocks.SysToMem(sysCycle);
    m.OneLiveEvent();
    at := m.evCycle[m.nextSchedEvent];
    FirstTry(setup, r1, r2, w1, w2, cur);
    FromSystemStart(setup.clocks, at);
    ghost var served, mid, next := m.Simulate(m.nextSchedEvent, at);
    FirstServed(setup, r1, r2, w1, w2, cur, served, mid);
  }

  method QueueSecond(m: DDRMemory, r1: Request, r2: Request, w1: Request, w2: Request, at: int, ghost cur: int)
    returns (ghost q2: Request, ghost c: int)
    requires m.Valid() && m.overflowQueue == [] && m.nextSchedCycle == Never && at >= 0
    requires Case(m.s, r1, r2, w1, w2, cur) && m.s.clocks.SysToMem(at) == cur + m.s.g.tRCD
    requires OneServed(m.s, r1, w1, cur, m.Snap())
    modifies m
    ensures m.Valid() && m.overflowQueue == [] && m.nextSchedCycle == At(c)
    ensures OneWaits(m.s, r1, q2, w1, cur, m.Snap(), c)
  {
    q2, c := SecondWaits(m.s, r1, r2, w1, w2, cur, m.Snap(), m.s.clocks.SysToMem(at));
    assert !m.Full();
    m.Enqueue(r2, at);
  }

  method QueueThird(m: DDRMemory, r1: Request, r2: Request, w1: Request, w2: Request, at: int, ghost cur: int,
                    ghost q2: Request, ghost c: int)
    returns (ghost q1: Request)
    requires m.Valid() && m.overflowQueue == [] && m.nextSchedCycle == At(c) && at >= 0
    requires Case(m.s, r1, r2, w1, w2, cur) && m.s.clocks.SysToMem(at) == cur + m.s.g.tRCD
    requires OneWaits(m.s, r1, q2, w1, cur, m.Snap(), c)
    modifies m
    ensures m.Valid() && m.overflowQueue == [] && m.nextSchedCycle == At(cur + 2 * m.s.g.tRCD)
    ensures TwoWait(m.s, q2, q1, cur, m.Snap()) && q1.bank == w1.bank
  {
    q1 := ThirdWaits(m.s, r1, r2, w1, w2, cur, m.Snap(), m.s.clocks.SysToMem(at), q2, c);
    assert !m.Full();
    m.Enqueue(w1, at);
  }

  /** The event for w1 arrives. */
  method TryThird(m: DDRMemory, ghost q2: Request, ghost q1: Request, ghost cur: int) returns (at: int)
    requires m.Valid() && m.overflowQueue == [] && m.nextSchedCycle == At(cur + 2 * m.s.g.tRCD) && cur >= 1
    requires TwoWait(m.s, q2, q1, cur, m.Snap()) && m.s.depth == 2 && m.s.g.tBL <= m.s.g.tRCD
    modifies m
    ensures m.Valid() && m.overflowQueue == [] && m.Snap() == old(m.Snap())
    ensures at >= 0 && m.s.clocks.SysToMem(at) == cur + 2 * m.s.g.tRCD
    ensures m.nextSchedCycle == At(FindMinCmdCycle(m.s.g, m.timing, q2))
  {
    m.OneLiveEvent();
    at := m.evCycle[m.nextSchedEvent];
    FromSystemStart(m.s.clocks, at);
    ghost var x := m.Snap();
    ghost var served, mid, next := m.Simulate(m.nextSchedEvent, at);
    ghost var c := m.s.clocks.SysToMem(at);
    NothingServed(m.s, q2, q1, cur, x, c, served, mid, next, m.Snap(), m.overflowQueue, m.nextSchedCycle);
  }

  method QueueFourth(m: DDRMemory, ghost q2: Request, ghost q1: Request, w2: Request, at: int, ghost cur: int)
    requires m.Valid() && m.overflowQueue == [] && at >= 0 && m.s.clocks.SysToMem(at) == cur + 2 * m.s.g.tRCD
    requires TwoWait(m.s, q2, q1, cur, m.Snap()) && m.s.depth == 2 && m.s.g.tBL <= m.s.g.tRCD
    requires m.s.deferred && w2.write && w2.bank == q1.bank
    requires m.nextSchedCycle == At(FindMinCmdCycle(m.s.g, m.timing, q2))
    modifies m
    ensures m.Valid() && m.overflowQueue == []
    ensures var c := m.s.clocks.SysToMem(at);
            Later(m.nextSchedCycle, c) && !Quiet(m.s, m.Snap(), c) && !m.Restful()
  {
    ghost var x, c := m.Snap(), m.s.clocks.SysToMem(at);
    assert !m.Full() && !FirstOfBank(m.s, x, w2);
    m.Enqueue(w2, at);
    TooLate(m.s, q2, q1, w2, cur, x, m.Snap(), c, m.nextSchedCycle);
  }

  /** A try for the first write serves nothing, for reads are favoured; then a second write arrives, and writes are
      favoured, but the next try stays as it was planned for the read: the controller sleeps past cycles at which a
      try would serve a write. */
  method FavourComesLate(setup: Setup, r1: Request, r2: Request, w1: Request, w2: Request, sysCycle: int)
    returns (m: DDRMemory, at: int)
    requires sysCycle >= 0 && setup.clocks.Ok() && Case(setup, r1, r2, w1, w2, setup.clocks.SysToMem(sysCycle))
    ensures m.Valid() && m.s == setup && m.overflowQueue == []
    ensures Later(m.nextSchedCycle, setup.clocks.SysToMem(at))
    ensures !Quiet(setup, m.Snap(), setup.clocks.SysToMem(at)) && !m.Restful()
  {
    ghost var cur := setup.clocks.SysToMem(sysCycle);
    m, at := ServeFirst(setup, r1, r2, w1, w2, sysCycle);
    ghost var q2, c := QueueSecond(m, r1, r2, w1, w2, at, cur);
    ghost var q1 := QueueThird(m, r1, r2, w1, w2, at, cur, q2, c);
    at := TryThird(m, q2, q1, cur);
    QueueFourth(m, q2, q1, w2, at, cur);
  }
}
