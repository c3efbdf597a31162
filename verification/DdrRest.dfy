/** Between its tries the DRAM controller misses nothing: at no cycle before the next planned try would one serve a
    request, as long as the requests that arrive meanwhile leave the same queue favoured.
 */
module DdrRest {
  import opened Arith
  import opened DdrQueue
  import opened DdrTiming
  import opened DdrClock
  import opened DdrLanes
  import opened DdrSteps

  /** A try at cycle c would serve nothing. */
  ghost predicate Quiet(s: Setup, x: Core, c: int)
    requires x.Ok(s)
  {
    var lane := if x.FavoursWrites(s.depth) then x.wr else x.rd;
    !x.Pending() || c + s.g.tCL < x.timing.minResp || NoneReady(s.g, x.timing, lane.queue, |lane.queue|, lane.lists, c)
  }

  lemma QuietServesNothing(s: Setup, x: Core, c: int, served: Served, y: Core)
    requires Tried(s, x, c, served, y)
    ensures Quiet(s, x, c) <==> served == None
  {
    if served.One? {
      var lane := if x.FavoursWrites(s.depth) then x.wr else x.rd;
      assert Ready(s.g, x.timing, lane.lists, lane.queue[served.index], c);
    }
  }

  ghost predicate Rests(s: Setup, x: Core, next: When) {
    x.Ok(s) && forall c | Later(next, c) :: Quiet(s, x, c)
  }

  /** The next try that trySchedule asks for. */
  ghost predicate TryNext(s: Setup, x: Core, cur: int, served: Served, y: Core, next: When)
    requires x.Ok(s)
  {
    var lane := if x.FavoursWrites(s.depth) then x.wr else x.rd;
    if !y.Pending() then next == Never
    else if cur + s.g.tCL < x.timing.minResp then next == At(x.timing.minResp - s.g.tCL)
    else NextIs(s.g, x.timing, lane, served, y.timing, next)
  }

  /** What an arrival of the live event does: a try, which leaves mid and asks for a next one, and a refill. */
  ghost predicate Ticked(s: Setup, x: Core, ovf: Queue, cur: int, served: Served, mid: Core, next: When, y: Core,
                         ovf': Queue, next': When) {
    && Tried(s, x, cur, served, mid) && mid.Ok(s) && TryNext(s, x, cur, served, mid, next)
    && (next.Never? <==> !mid.Pending()) && (next.At? ==> next.c >= cur)
    && Refilled(s, mid, ovf, cur, next, y, ovf', next')
  }

  /** After a try. */
  lemma TryRests(s: Setup, x: Core, cur: int, served: Served, y: Core, next: When)
    requires Tried(s, x, cur, served, y) && y.Ok(s) && TryNext(s, x, cur, served, y, next)
    ensures Rests(s, y, next)
  {
    if served.None? {
      assert x.responses + [] == x.responses;
      assert y == x;
    }
  }

  /** A queue gets a request that has to wait, or is not the first of its bank. */
  lemma AddedNotReady(g: Tech, t: Timing, lane: Lane, r: Request, limit: int, b: RowState, c: int)
    requires g.Ok() && t.Shaped(g) && lane.Ok(g, limit) && 0 <= r.bank < |g.rankOf|
    requires NoneReady(g, t, lane.queue, |lane.queue|, lane.lists, c)
    requires lane.lists[r.bank] == [] ==> FindMinCmdCycle(g, t, r) > c
    ensures var lane' := AddedTo(lane, r, limit, b);
            |lane'.lists| == |t.banks| && NoneReady(g, t, lane'.queue, |lane'.queue|, lane'.lists, c)
  {
    var lane' := AddedTo(lane, r, limit, b);
    var list, list' := lane.lists[r.bank], lane'.lists[r.bank];
    forall j | 0 <= j < |lane'.queue| ensures !Ready(g, t, lane'.lists, lane'.queue[j], c) {
      if list != [] && First(lane'.lists, lane'.queue[j]) && lane'.queue[j].bank == r.bank {
        FrontStays(list, r, limit, b);
        Front(g, lane, limit, r.bank);
      } else if j < |lane.queue| {
        assert !Ready(g, t, lane.lists, lane.queue[j], c);
      }
    }
  }

  lemma FrontStays(q: Queue, r: Request, limit: int, b: RowState)
    requires q != []
    ensures Insert(q, r, limit, b)[0] == q[0]
  {
  }

  lemma Front(g: Tech, lane: Lane, limit: int, b: int)
    requires lane.Ok(g, limit) && 0 <= b < |lane.lists| && lane.lists[b] != []
    ensures exists j | 0 <= j < |lane.queue| :: lane.queue[j] == lane.lists[b][0]
    ensures lane.lists[b][0].bank == b
  {
    var f := lane.lists[b][0];
    assert f in multiset(lane.lists[b]);
    assert f in multiset(OfBank(lane.queue, b));
    OfBankMember(lane.queue, b, f);
  }

  /** The request's arrival leaves the same queue favoured, or it is the only one. */
  ghost predicate SameFavour(s: Setup, x: Core, y: Core) {
    x.Pending() ==> (x.FavoursWrites(s.depth) <==> y.FavoursWrites(s.depth))
  }

  /** After a request has come in, its own readiness waited for or not. */
  lemma QueuedRests(s: Setup, x: Core, req: Request, cur: int, next: When, next': When)
    requires x.Ok(s) && 0 <= req.bank < |s.g.rankOf| && Queued(s, x, req, cur).Ok(s)
    requires var first, r := FirstOfBank(s, x, req), req.(arrival := cur);
      next' == PatientTry(s.g, x.timing, r, first, cur, next) || next' == NextTry(s.g, x.timing, first, cur, next)
    ensures Rests(s, x, next) && SameFavour(s, x, Queued(s, x, req, cur)) ==> Rests(s, Queued(s, x, req, cur), next')
  {
    if Rests(s, x, next) && SameFavour(s, x, Queued(s, x, req, cur)) {
      forall c | Later(next', c) ensures Quiet(s, Queued(s, x, req, cur), c) {
        assert Later(next, c) && Quiet(s, x, c);
        QueuedQuiet(s, x, req, cur, next', c);
      }
    }
  }

  lemma QueuedQuiet(s: Setup, x: Core, req: Request, cur: int, next': When, c: int)
    requires x.Ok(s) && Quiet(s, x, c) && 0 <= req.bank < |s.g.rankOf| && Queued(s, x, req, cur).Ok(s)
    requires SameFavour(s, x, Queued(s, x, req, cur)) && Later(next', c)
    requires FirstOfBank(s, x, req) ==>
               var r := req.(arrival := cur);
               c < Max(Max(cur, x.timing.minResp - s.g.tCL - s.g.tBL), FindMinCmdCycle(s.g, x.timing, r))
    ensures Quiet(s, Queued(s, x, req, cur), c)
  {
    var y, r := Queued(s, x, req, cur), req.(arrival := cur);
    var own, b := if s.deferred && req.write then x.wr else x.rd, RowOf(x.timing.banks[r.bank]);
    if c + s.g.tCL >= x.timing.minResp {
      var lane := if y.FavoursWrites(s.depth) then x.wr else x.rd;
      assert NoneReady(s.g, x.timing, lane.queue, |lane.queue|, lane.lists, c);
      if y.FavoursWrites(s.depth) == (s.deferred && req.write) {
        AddedNotReady(s.g, x.timing, own, r, s.limit, b, c);
      }
    }
  }

  /** After a try, and the request that it lets in from the overflow list. */
  lemma TickRests(s: Setup, x: Core, cur: int, served: Served, mid: Core, next: When, ovf: Queue, y: Core, ovf': Queue,
                  next': When)
    requires Ticked(s, x, ovf, cur, served, mid, next, y, ovf', next') && y.Ok(s)
    ensures SameFavour(s, mid, y) ==> Rests(s, y, next')
  {
    TryRests(s, x, cur, served, mid, next);
    if SameFavour(s, mid, y) && ovf' != ovf {
      QueuedRests(s, mid, ovf[0], cur, next, next');
    }
  }

  lemma RefreshDelays(g: Tech, t: Timing, cur: int, r: Request)
    requires g.Ok() && t.Shaped(g) && 0 <= r.bank < |t.banks| && r.arrival <= cur
    ensures FindMinCmdCycle(g, Refresh(g, t, cur), r) >= FindMinCmdCycle(g, t, r)
  {
    BusyBounds(t.banks, cur, r.bank);
  }

  ghost predicate ArrivedBy(x: Core, cur: int) {
    forall r | r in x.rd.queue + x.wr.queue :: r.arrival <= cur
  }

  /** A refresh makes no request ready any sooner. */
  lemma RefreshRests(s: Setup, x: Core, y: Core, cur: int, next: When)
    requires x.Ok(s) && y == x.(timing := Refresh(s.g, x.timing, cur), trace := y.trace) && y.Ok(s)
    ensures Rests(s, x, next) && ArrivedBy(x, cur) ==> Rests(s, y, next)
  {
    if Rests(s, x, next) && ArrivedBy(x, cur) {
      RefreshedQuiet(s, x, y, cur, next);
    }
  }

  lemma RefreshedQuiet(s: Setup, x: Core, y: Core, cur: int, next: When)
    requires Rests(s, x, next) && ArrivedBy(x, cur)
    requires y == x.(timing := Refresh(s.g, x.timing, cur), trace := y.trace) && y.Ok(s)
    ensures Rests(s, y, next)
  {
    forall c | Later(next, c) ensures Quiet(s, y, c) {
      assert Quiet(s, x, c);
      var lane := if x.FavoursWrites(s.depth) then x.wr else x.rd;
      if c + s.g.tCL >= x.timing.minResp {
        forall j | 0 <= j < |lane.queue| ensures !Ready(s.g, y.timing, lane.lists, lane.queue[j], c) {
          var r := lane.queue[j];
          assert r in x.rd.queue + x.wr.queue;
          assert 0 <= r.bank < |lane.lists|;
          RefreshDelays(s.g, x.timing, cur, r);
        }
      }
    }
  }
}
