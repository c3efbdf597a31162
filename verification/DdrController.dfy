/** The DRAM controller: requests wait in a read and a write queue, and an event wakes the controller at the cycle
    of the next command. When the queues are full, requests overflow into a list of their own.
 */
module DdrController {
  import opened Arith
  import opened DdrQueue
  import opened DdrTiming
  import opened DdrClock
  import opened DdrLanes
  import opened DdrSteps
  import opened DdrRest
  import ActWindow

  // ---------------------------------------------------------------- events

  datatype EvState = IDLE | QUEUED | RUNNING | ANNULLED

  /** At most one event is queued, namely the next one, and it arrives at the memory cycle w. */
  ghost predicate EventsOk(k: Clocks, evState: seq<EvState>, evCycle: seq<int>, free: seq<int>, next: int, w: When) {
    && k.Ok() && |evState| == |evCycle|
    && (next == -1 <==> w.Never?)
    && (next != -1 ==> 0 <= next < |evState| && evState[next] == QUEUED && k.SysToMem(evCycle[next]) == w.c)
    && (forall e | 0 <= e < |evState| && e != next :: evState[e] == IDLE || evState[e] == ANNULLED)
    && (forall i | 0 <= i < |free| :: 0 <= free[i] < |evState| && evState[free[i]] == IDLE)
    && (forall i, j | 0 <= i < j < |free| :: free[i] != free[j])
  }

  /** The live event is queued again, for another cycle. */
  lemma EventAgain(k: Clocks, evState: seq<EvState>, evCycle: seq<int>, free: seq<int>, e: int, w: When, again: int,
                   c: int)
    requires EventsOk(k, evState, evCycle, free, e, w) && e != -1 && k.SysToMem(again) == c
    ensures EventsOk(k, evState[e := RUNNING][e := QUEUED], evCycle[e := again], free, e, At(c))
  {
    assert evState[e := RUNNING][e := QUEUED] == evState;
  }

  /** An event that has arrived is recycled: the live one if the controller has nothing to do, or an annulled one. */
  lemma EventDone(k: Clocks, evState: seq<EvState>, evCycle: seq<int>, free: seq<int>, next: int, w: When, e: int)
    requires EventsOk(k, evState, evCycle, free, next, w) && 0 <= e < |evState| && (e == next || evState[e] == ANNULLED)
    ensures e !in free
    ensures EventsOk(k, evState[e := IDLE], evCycle, [e] + free,
                     if e == next then -1 else next, if e == next then Never else w)
  {
    if e == next {
      assert forall i | 0 <= i < |evState| && i != e :: evState[i] == IDLE || evState[i] == ANNULLED;
    }
  }

  // ---------------------------------------------------------------- the controller

  class DDRMemory {
    const s: Setup
    var timing: Timing
    var rd: Lane
    var wr: Lane
    var overflowQueue: Queue
    var responses: seq<(int, int)>
    var nextSchedCycle: When
    /** The scheduling events: the live one, or -1; all of them by number; those that may be used again. */
    var nextSchedEvent: int
    var evState: seq<EvState>
    var evCycle: seq<int>
    var eventFreelist: seq<int>
    ghost var trace: seq<Cmd>
    /** The requests that have come in. */
    ghost var arrived: seq<int>

    ghost function Snap(): Core
      reads this
    {
      Core(timing, rd, wr, responses, trace)
    }

    ghost predicate CoreOk()
      reads this
    {
      Snap().Ok(s) && InBanks(overflowQueue, |s.g.rankOf|)
    }

    predicate Pending()
      reads this
    {
      |rd.queue| > 0 || |wr.queue| > 0
    }

    predicate Full()
      reads this
    {
      |rd.queue| >= s.depth || |wr.queue| >= s.depth
    }

    /** While a request waits anywhere, an event is queued; and none waits in the overflow list alone. */
    ghost predicate Planned()
      reads this
    {
      && CoreOk() && EventsOk(s.clocks, evState, evCycle, eventFreelist, nextSchedEvent, nextSchedCycle)
      && (Pending() ==> nextSchedCycle.At?) && (overflowQueue != [] ==> Pending())
    }

    ghost predicate Valid()
      reads this
    {
      Planned() && Sound(s, Snap(), overflowQueue, arrived)
    }

    /** No try before the next one would serve a request. */
    ghost predicate Restful()
      reads this
    {
      Rests(s, Snap(), nextSchedCycle)
    }

    constructor (setup: Setup)
      requires setup.g.Ok() && setup.clocks.Ok() && setup.depth >= 1
      ensures Valid() && s == setup && !Pending() && overflowQueue == []
      ensures Snap() == Fresh(s) && nextSchedCycle == Never && arrived == [] && Restful()
    {
      s := setup;
      timing := Start(setup.g);
      rd, wr := Lane([], seq(|setup.g.rankOf|, _ => [])), Lane([], seq(|setup.g.rankOf|, _ => []));
      overflowQueue, responses, trace, arrived := [], [], [], [];
      nextSchedCycle, nextSchedEvent, evState, evCycle, eventFreelist := Never, -1, [], [], [];
      new;
      StartKeeps(setup.g);
    }

    /** Serves at most one request; returns the next cycle worth a try, none if nothing is queued. */
    method TrySchedule(curCycle: int, sysCycle: int) returns (next: When, ghost served: Served)
      requires CoreOk() && sysCycle >= 0 && curCycle == s.clocks.SysToMem(sysCycle)
      modifies this`timing, this`rd, this`wr, this`responses, this`trace
      ensures CoreOk() && (next.Never? <==> !Pending()) && (next.At? ==> next.c >= curCycle)
      ensures Tried(s, old(Snap()), curCycle, served, Snap())
      ensures TryNext(s, old(Snap()), curCycle, served, Snap(), next)
      ensures served.One? ==>
                if WritesFirst(|old(rd).queue|, |old(wr).queue|, old(timing).lastWrite, s.depth) then
                  rd == old(rd) && LeavesRow(s.closed, old(wr), served, timing, wr)
                else
                  wr == old(wr) && LeavesRow(s.closed, old(rd), served, timing, rd)
      ensures served.One? ==>
                var lane := if rd == old(rd) then old(wr) else old(rd);
                && served.index < |lane.queue|
                && AnswersAtEnd(s, lane.queue[served.index], old(responses), responses, trace)
    {
      if |rd.queue| == 0 && |wr.queue| == 0 {
        return Never, None;
      }
      if curCycle + s.g.tCL < timing.minResp {
        return At(timing.minResp - s.g.tCL), None;
      }
      ghost var x := Snap();
      served, next := ServeFavoured(curCycle, sysCycle);
      if served.One? {
        TriedAnswers(s, x, curCycle, served, Snap());
      }
      if |rd.queue| == 0 && |wr.queue| == 0 {
        next := Never;
      }
    }

    method ServeFavoured(curCycle: int, sysCycle: int) returns (served: Served, next: When)
      requires CoreOk() && Pending() && sysCycle >= 0 && curCycle == s.clocks.SysToMem(sysCycle)
      modifies this`timing, this`rd, this`wr, this`responses, this`trace
      ensures CoreOk() && next.At? && next.c >= curCycle
      ensures FavouredServed(s, old(Snap()), curCycle, served, Snap())
      ensures NextIs(s.g, old(timing), if old(Snap()).FavoursWrites(s.depth) then old(wr) else old(rd), served,
        timing, next)
      ensures served.One? ==>
                if old(Snap()).FavoursWrites(s.depth) then LeavesRow(s.closed, old(wr), served, timing, wr)
                else LeavesRow(s.closed, old(rd), served, timing, rd)
    {
      var prioWrites := |wr.queue| > 3 * s.depth / 4 || (timing.lastWrite && |wr.queue| > s.depth / 4);
      if |rd.queue| == 0 || prioWrites {
        served, next := ServeWrites(curCycle, sysCycle);
      } else {
        served, next := ServeReads(curCycle, sysCycle);
      }
    }

    method ServeWrites(curCycle: int, sysCycle: int) returns (served: Served, next: When)
      requires TimingOk(s.g, timing, trace) && wr.Ok(s.g, s.limit) && |wr.queue| > 0
      requires s.clocks.Ok() && sysCycle >= 0 && curCycle == s.clocks.SysToMem(sysCycle)
      modifies this`timing, this`wr, this`responses, this`trace
      ensures LaneServed(s.g, old(timing), old(trace), old(wr), s.limit, curCycle, s.closed, served, next, timing,
        trace, wr)
      ensures responses == old(responses) + if served.One? then Reply(s, old(wr).queue[served.index], timing) else []
    {
      var queue := wr.queue;
      served, next, timing, trace, wr := ServeLane(s.g, timing, trace, wr, s.limit, curCycle, s.closed);
      if served.One? {
        Respond(queue[served.index], curCycle, sysCycle);
      }
    }

    method ServeReads(curCycle: int, sysCycle: int) returns (served: Served, next: When)
      requires TimingOk(s.g, timing, trace) && rd.Ok(s.g, s.limit) && |rd.queue| > 0
      requires s.clocks.Ok() && sysCycle >= 0 && curCycle == s.clocks.SysToMem(sysCycle)
      modifies this`timing, this`rd, this`responses, this`trace
      ensures LaneServed(s.g, old(timing), old(trace), old(rd), s.limit, curCycle, s.closed, served, next, timing,
        trace, rd)
      ensures responses == old(responses) + if served.One? then Reply(s, old(rd).queue[served.index], timing) else []
    {
      var queue := rd.queue;
      served, next, timing, trace, rd := ServeLane(s.g, timing, trace, rd, s.limit, curCycle, s.closed);
      if served.One? {
        Respond(queue[served.index], curCycle, sysCycle);
      }
    }

    /** Answers a served read; writes have been answered when they were queued. */
    method Respond(r: Request, curCycle: int, sysCycle: int)
      requires s.clocks.Ok() && sysCycle >= 0 && curCycle == s.clocks.SysToMem(sysCycle) && timing.minResp >= curCycle
      modifies this`responses
      ensures responses == old(responses) + Reply(s, r, timing)
    {
      if !r.write {
        RespondsLater(s.clocks, timing.minResp, sysCycle);
        var preDelay := s.latency;
        var minRdLatency := s.latency + s.clocks.MemToSys(s.g.tCL + s.g.tBL - 1);
        var postDelayRd := minRdLatency - preDelay;
        var doneSysCycle := s.clocks.MemToSys(timing.minResp) + s.latency;
        assert doneSysCycle >= sysCycle;
        responses := responses + [(r.id, doneSysCycle - preDelay - postDelayRd)];
      }
    }

    /** Closes every row for a refresh. */
    method DoRefresh(sysCycle: int)
      requires Valid()
      modifies this`timing, this`trace
      ensures Valid() && timing == Refresh(s.g, old(timing), s.clocks.SysToMem(sysCycle))
      ensures old(Restful()) && ArrivedBy(Snap(), s.clocks.SysToMem(sysCycle)) ==> Restful()
      ensures trace == old(trace) + [RefOf(s.g, old(timing), s.clocks.SysToMem(sysCycle))]
    {
      var memCycle := s.clocks.SysToMem(sysCycle);
      ghost var x := Snap();
      RefreshKeeps(s.g, timing, trace, memCycle);
      trace := trace + [RefOf(s.g, timing, memCycle)];
      timing := RefreshBanks(s.g, timing, memCycle);
      RefreshRests(s, x, Snap(), memCycle, nextSchedCycle);
    }

    /** Puts a request in its queue and bank list, counted as arriving now; answers a write. */
    method QueueRequest(req: Request, memCycle: int) returns (r: Request, first: bool)
      requires CoreOk() && !Full() && 0 <= req.bank < |s.g.rankOf|
      modifies this`rd, this`wr, this`responses
      ensures CoreOk() && Pending() && Snap() == Queued(s, old(Snap()), req, memCycle)
      ensures r == req.(arrival := memCycle) && req.bank < |timing.banks|
      ensures first == FirstOfBank(s, old(Snap()), req) && (!first ==> old(Pending()))
    {
      r := req.(arrival := memCycle);
      AnswerWrite(req, memCycle);
      var b := RowOf(timing.banks[r.bank]);
      if s.deferred && req.write {
        wr, first := AddRequest(s.g, wr, r, s.limit, b);
      } else {
        rd, first := AddRequest(s.g, rd, r, s.limit, b);
      }
    }

    method AnswerWrite(req: Request, memCycle: int)
      requires s.clocks.Ok()
      modifies this`responses
      ensures responses == old(responses) + if req.write then [(req.id, s.clocks.MemToSys(memCycle))] else []
    {
      if req.write {
        var minWrLatency, preDelay, postDelayWr := s.latency, s.latency, 0;
        var respCycle := s.clocks.MemToSys(memCycle) + minWrLatency;
        responses := responses + [(req.id, respCycle - preDelay - postDelayWr)];
      }
    }

    /** A request comes in: it overflows if a queue is full; otherwise it is queued, and if it is the first of its
        bank and can go before the next try, the scheduling event is moved up. */
    method Enqueue(req: Request, sysCycle: int)
      requires Valid() && sysCycle >= 0 && 0 <= req.bank < |s.g.rankOf|
      modifies this`rd, this`wr, this`overflowQueue, this`responses, this`arrived
      modifies this`nextSchedCycle, this`nextSchedEvent, this`evState, this`evCycle, this`eventFreelist
      ensures Valid() && Pending() && arrived == old(arrived) + [req.id]
      ensures var cur := s.clocks.SysToMem(sysCycle);
        if |old(rd).queue| == s.depth || |old(wr).queue| == s.depth then
          && Snap() == old(Snap()) && overflowQueue == old(overflowQueue) + [req.(arrival := cur)]
          && nextSchedCycle == old(nextSchedCycle)
        else
          && Snap() == Queued(s, old(Snap()), req, cur) && overflowQueue == old(overflowQueue)
          && nextSchedCycle == PatientTry(s.g, timing, req.(arrival := cur), FirstOfBank(s, old(Snap()), req), cur,
            old(nextSchedCycle))
      ensures old(Restful()) && SameFavour(s, old(Snap()), Snap()) ==> Restful()
    {
      var memCycle := s.clocks.SysToMem(sysCycle);
      ghost var x, w := Snap(), nextSchedCycle;
      if Full() {
        OverflowSound(s, x, overflowQueue, req.(arrival := memCycle), arrived);
        overflowQueue := overflowQueue + [req.(arrival := memCycle)];
      } else {
        QueuedSound(s, x, req, memCycle, overflowQueue, arrived);
        EnqueueNow(req, memCycle, sysCycle);
        QueuedRests(s, x, req, memCycle, w, nextSchedCycle);
      }
      arrived := arrived + [req.id];
    }

    method EnqueueNow(req: Request, memCycle: int, sysCycle: int)
      requires CoreOk() && !Full() && 0 <= req.bank < |s.g.rankOf| && sysCycle >= 0
        && memCycle == s.clocks.SysToMem(sysCycle)
      requires EventsOk(s.clocks, evState, evCycle, eventFreelist, nextSchedEvent, nextSchedCycle)
      requires Pending() ==> nextSchedCycle.At?
      modifies this`rd, this`wr, this`responses
      modifies this`nextSchedCycle, this`nextSchedEvent, this`evState, this`evCycle, this`eventFreelist
      ensures CoreOk() && EventsOk(s.clocks, evState, evCycle, eventFreelist, nextSchedEvent, nextSchedCycle)
      ensures Pending() && nextSchedCycle.At?
      ensures Snap() == Queued(s, old(Snap()), req, memCycle)
      ensures nextSchedCycle ==
        PatientTry(s.g, timing, req.(arrival := memCycle), FirstOfBank(s, old(Snap()), req), memCycle,
          old(nextSchedCycle))
    {
      var r, first := QueueRequest(req, memCycle);
      if first {
        ScheduleFirst(r, memCycle, sysCycle);
      }
    }

    /** Moves the scheduling event up if the request can go before the next try. */
    method ScheduleFirst(r: Request, memCycle: int, sysCycle: int)
      requires EventsOk(s.clocks, evState, evCycle, eventFreelist, nextSchedEvent, nextSchedCycle)
      requires sysCycle >= 0 && memCycle == s.clocks.SysToMem(sysCycle)
      requires s.g.Ok() && timing.Shaped(s.g) && 0 <= r.bank < |timing.banks|
      modifies this`nextSchedCycle, this`nextSchedEvent, this`evState, this`evCycle, this`eventFreelist
      ensures EventsOk(s.clocks, evState, evCycle, eventFreelist, nextSchedEvent, nextSchedCycle)
      ensures nextSchedCycle == PatientTry(s.g, timing, r, true, memCycle, old(nextSchedCycle)) && nextSchedCycle.At?
    {
      var minSchedCycle := Max(memCycle, timing.minResp - s.g.tCL - s.g.tBL);
      if Later(nextSchedCycle, minSchedCycle) {
        minSchedCycle := Max(minSchedCycle, FindMinCmdCycle(s.g, timing, r));
      }
      if Later(nextSchedCycle, minSchedCycle) {
        Reschedule(minSchedCycle, sysCycle);
      }
    }

    /** Annuls the queued event, if any, and queues one for an earlier memory cycle. */
    method Reschedule(minSchedCycle: int, sysCycle: int)
      requires EventsOk(s.clocks, evState, evCycle, eventFreelist, nextSchedEvent, nextSchedCycle)
      requires sysCycle >= 0 && minSchedCycle >= s.clocks.SysToMem(sysCycle)
      modifies this`nextSchedCycle, this`nextSchedEvent, this`evState, this`evCycle, this`eventFreelist
      ensures EventsOk(s.clocks, evState, evCycle, eventFreelist, nextSchedEvent, nextSchedCycle)
      ensures nextSchedCycle == At(minSchedCycle) && evCycle[nextSchedEvent] >= sysCycle && |evState| >= |old(evState)|
      ensures old(nextSchedEvent) != -1 ==> evState[old(nextSchedEvent)] == ANNULLED
      ensures nextSchedEvent < |old(evState)| ==> old(evState)[nextSchedEvent] == IDLE
      ensures forall e | 0 <= e < |old(evState)| && e != nextSchedEvent && e != old(nextSchedEvent) ::
        evState[e] == old(evState)[e] && evCycle[e] == old(evCycle)[e]
    {
      if nextSchedEvent != -1 {
        assert evState[nextSchedEvent] == QUEUED;
        evState := evState[nextSchedEvent := ANNULLED];
      }
      var e;
      if eventFreelist != [] {
        e := eventFreelist[0];
        eventFreelist := eventFreelist[1..];
      } else {
        e := |evState|;
        evState := evState + [IDLE];
        evCycle := evCycle + [0];
      }
      ExactWakeUp(s.clocks, minSchedCycle, sysCycle);
      var enqSysCycle := Max(s.clocks.MatchingMemToSys(minSchedCycle), sysCycle);
      assert evState[e] == IDLE;
      evState := evState[e := QUEUED];
      evCycle := evCycle[e := enqSysCycle];
      nextSchedEvent := e;
      nextSchedCycle := At(minSchedCycle);
    }

    /** The scheduling event arrives: serves a request, takes one from the overflow list, and returns the system
        cycle of the next try, or 0. In between, mid is the state and next the plan. */
    method Tick(sysCycle: int) returns (again: int, ghost served: Served, ghost mid: Core, ghost next: When)
      requires CoreOk() && sysCycle >= 0
      requires nextSchedCycle == At(s.clocks.SysToMem(sysCycle))
      modifies this`timing, this`rd, this`wr, this`responses, this`trace, this`overflowQueue, this`nextSchedCycle
      modifies this`nextSchedEvent
      ensures CoreOk() && (overflowQueue != [] ==> Pending()) && (Pending() ==> nextSchedCycle.At?)
      ensures if nextSchedCycle.Never? then again == 0 && nextSchedEvent == -1
              else
                && again >= 1 && again >= sysCycle && s.clocks.SysToMem(again) == nextSchedCycle.c
                && nextSchedEvent == old(nextSchedEvent)
      ensures Ticked(s, old(Snap()), old(overflowQueue), s.clocks.SysToMem(sysCycle), served, mid, next, Snap(),
        overflowQueue, nextSchedCycle)
    {
      var memCycle := s.clocks.SysToMem(sysCycle);
      assert nextSchedCycle == At(memCycle);
      var minSchedCycle;
      minSchedCycle, served, mid, next := TryAndRefill(memCycle, sysCycle);
      again := Plan(sysCycle, minSchedCycle);
    }

    method TryAndRefill(memCycle: int, sysCycle: int)
      returns (next': When, ghost served: Served, ghost mid: Core, ghost next: When)
      requires CoreOk() && sysCycle >= 0 && memCycle == s.clocks.SysToMem(sysCycle)
      modifies this`timing, this`rd, this`wr, this`responses, this`trace, this`overflowQueue
      ensures CoreOk() && (overflowQueue != [] ==> Pending())
      ensures (next'.Never? <==> !Pending()) && (next'.At? ==> next'.c >= memCycle)
      ensures Ticked(s, old(Snap()), old(overflowQueue), memCycle, served, mid, next, Snap(), overflowQueue, next')
    {
      var minSchedCycle;
      minSchedCycle, served := TrySchedule(memCycle, sysCycle);
      mid, next := Snap(), minSchedCycle;
      assert minSchedCycle.At? ==> minSchedCycle.c >= memCycle;
      next' := Refill(memCycle, minSchedCycle);
    }

    /** Settles the next try and its system cycle. */
    method Plan(sysCycle: int, next: When) returns (again: int)
      requires s.clocks.Ok() && sysCycle >= 0 && (next.At? ==> next.c >= s.clocks.SysToMem(sysCycle))
      modifies this`nextSchedCycle, this`nextSchedEvent
      ensures nextSchedCycle == next
      ensures if next.Never? then again == 0 && nextSchedEvent == -1
              else
                && again >= 1 && again >= sysCycle && s.clocks.SysToMem(again) == next.c
                && nextSchedEvent == old(nextSchedEvent)
    {
      nextSchedCycle := next;
      if next.Never? {
        nextSchedEvent := -1;
        return 0;
      }
      ExactWakeUp(s.clocks, next.c, sysCycle);
      again := Max(s.clocks.MatchingMemToSys(next.c), sysCycle);
    }

    /** Takes an overflowed request in, if there is one and no queue is full. */
    method Refill(memCycle: int, next: When) returns (next': When)
      requires CoreOk() && (next.Never? <==> !Pending()) && (next.At? ==> next.c >= memCycle)
      modifies this`rd, this`wr, this`responses, this`overflowQueue
      ensures CoreOk() && (next'.Never? <==> !Pending()) && (next'.At? ==> next'.c >= memCycle)
      ensures overflowQueue != [] ==> Pending()
      ensures Refilled(s, old(Snap()), old(overflowQueue), memCycle, next, Snap(), overflowQueue, next')
    {
      next' := next;
      if !Full() && overflowQueue != [] {
        next' := TakeOverflow(memCycle, next);
      }
    }

    /** Moves the oldest overflowed request into its queue; it may ask for an earlier try. */
    method TakeOverflow(memCycle: int, next: When) returns (next': When)
      requires CoreOk() && !Full() && overflowQueue != []
      requires (next.Never? <==> !Pending()) && (next.At? ==> next.c >= memCycle)
      modifies this`rd, this`wr, this`responses, this`overflowQueue
      ensures CoreOk() && Pending() && overflowQueue == old(overflowQueue)[1..]
      ensures Snap() == Queued(s, old(Snap()), old(overflowQueue)[0], memCycle)
      ensures next' == NextTry(s.g, timing, FirstOfBank(s, old(Snap()), old(overflowQueue)[0]), memCycle, next)
      ensures next'.At? && next'.c >= memCycle
    {
      var ovfReq := overflowQueue[0];
      overflowQueue := overflowQueue[1..];
      var r, first := QueueRequest(ovfReq, memCycle);
      next' := PlanOverflow(s.g, timing, r, first, memCycle, next);
    }

    /** An event arrives at its cycle. Only the live one ticks the controller; it always comes at exactly the
        memory cycle planned. An annulled one is just recycled. */
    method Simulate(e: int, startCycle: int) returns (ghost served: Served, ghost mid: Core, ghost next: When)
      requires Valid() && 0 <= e < |evState| && startCycle == evCycle[e] >= 0
      requires evState[e] == QUEUED || evState[e] == ANNULLED
      modifies this`timing, this`rd, this`wr, this`responses, this`trace, this`overflowQueue, this`nextSchedCycle
      modifies this`nextSchedEvent, this`evState, this`evCycle, this`eventFreelist
      ensures Valid()
      ensures old(evState[e]) == ANNULLED ==>
        && Snap() == old(Snap()) && overflowQueue == old(overflowQueue) && nextSchedCycle == old(nextSchedCycle)
        && nextSchedEvent == old(nextSchedEvent) && evState == old(evState)[e := IDLE] && evCycle == old(evCycle)
      ensures old(evState[e]) == QUEUED ==>
        && e == old(nextSchedEvent) && old(nextSchedCycle) == At(s.clocks.SysToMem(startCycle))
        && Ticked(s, old(Snap()), old(overflowQueue), s.clocks.SysToMem(startCycle), served, mid, next, Snap(),
          overflowQueue, nextSchedCycle)
      ensures |evState| == |old(evState)| && (evState[e] == QUEUED ==> evCycle[e] >= startCycle)
      ensures old(evState[e]) == QUEUED && SameFavour(s, mid, Snap()) ==> Restful()
    {
      served, mid, next := None, Snap(), Never;
      ghost var x, ovf, cur := Snap(), overflowQueue, s.clocks.SysToMem(startCycle);
      if evState[e] == QUEUED {
        served, mid, next := SimulateLive(e, startCycle);
        TriedSound(s, x, cur, served, mid, ovf, arrived);
        RefilledSound(s, mid, ovf, cur, next, Snap(), overflowQueue, nextSchedCycle, arrived);
        TickRests(s, x, cur, served, mid, next, ovf, Snap(), overflowQueue, nextSchedCycle);
      } else {
        assert evState[e] == ANNULLED;
        EventDone(s.clocks, evState, evCycle, eventFreelist, nextSchedEvent, nextSchedCycle, e);
        evState := evState[e := IDLE];
        RecycleEvent(e);
      }
    }

    method SimulateLive(e: int, startCycle: int) returns (ghost served: Served, ghost mid: Core, ghost next: When)
      requires Planned() && 0 <= e < |evState| && startCycle == evCycle[e] >= 0 && evState[e] == QUEUED
      modifies this`timing, this`rd, this`wr, this`responses, this`trace, this`overflowQueue, this`nextSchedCycle
      modifies this`nextSchedEvent, this`evState, this`evCycle, this`eventFreelist
      ensures Planned()
      ensures e == old(nextSchedEvent) && old(nextSchedCycle) == At(s.clocks.SysToMem(startCycle))
      ensures Ticked(s, old(Snap()), old(overflowQueue), s.clocks.SysToMem(startCycle), served, mid, next, Snap(),
        overflowQueue, nextSchedCycle)
      ensures |evState| == |old(evState)| && (evState[e] == QUEUED ==> evCycle[e] >= startCycle)
    {
      ghost var states, w := evState, nextSchedCycle;
      assert e == nextSchedEvent && w == At(s.clocks.SysToMem(startCycle));
      var nextCycle: int;
      nextCycle, served, mid, next := RunTick(e, startCycle);
      Settle(states, w, e, nextCycle);
    }

    method RunTick(e: int, sysCycle: int) returns (again: int, ghost served: Served, ghost mid: Core, ghost next: When)
      requires CoreOk() && sysCycle >= 0 && 0 <= e < |evState|
      requires nextSchedCycle == At(s.clocks.SysToMem(sysCycle))
      modifies this`timing, this`rd, this`wr, this`responses, this`trace, this`overflowQueue, this`nextSchedCycle
      modifies this`nextSchedEvent, this`evState
      ensures CoreOk() && (overflowQueue != [] ==> Pending()) && (Pending() ==> nextSchedCycle.At?)
      ensures evState == old(evState)[e := RUNNING]
      ensures if nextSchedCycle.Never? then again == 0 && nextSchedEvent == -1
              else
                && again >= 1 && again >= sysCycle && s.clocks.SysToMem(again) == nextSchedCycle.c
                && nextSchedEvent == old(nextSchedEvent)
      ensures Ticked(s, old(Snap()), old(overflowQueue), s.clocks.SysToMem(sysCycle), served, mid, next, Snap(),
        overflowQueue, nextSchedCycle)
    {
      evState := evState[e := RUNNING];
      again, served, mid, next := Tick(sysCycle);
    }

    /** The live event has arrived; it is queued again for the given cycle, or recycled if that is 0. */
    method Settle(ghost states: seq<EvState>, ghost w: When, e: int, nextCycle: int)
      requires EventsOk(s.clocks, states, evCycle, eventFreelist, e, w) && 0 <= e < |states|
      requires evState == states[e := RUNNING]
      requires if nextCycle != 0 then
                 nextSchedEvent == e && nextSchedCycle.At? && s.clocks.SysToMem(nextCycle) == nextSchedCycle.c
               else nextSchedEvent == -1 && nextSchedCycle.Never?
      modifies this`evState, this`evCycle, this`eventFreelist
      ensures EventsOk(s.clocks, evState, evCycle, eventFreelist, nextSchedEvent, nextSchedCycle)
      ensures |evState| == |states|
      ensures if nextCycle != 0 then evState[e] == QUEUED && evCycle[e] == nextCycle else evState[e] == IDLE
    {
      if nextCycle != 0 {
        EventAgain(s.clocks, states, evCycle, eventFreelist, e, w, nextCycle, nextSchedCycle.c);
        evCycle := evCycle[e := nextCycle];
        evState := evState[e := QUEUED];
      } else {
        EventDone(s.clocks, states, evCycle, eventFreelist, e, w, e);
        evState := evState[e := IDLE];
        assert evState == states[e := IDLE];
        RecycleEvent(e);
      }
    }

    /** While a request waits, exactly one event is live, and it arrives at the planned memory cycle. */
    lemma OneLiveEvent()
      requires Valid() && (Pending() || overflowQueue != [])
      ensures nextSchedCycle.At? && 0 <= nextSchedEvent < |evState| == |evCycle|
      ensures s.clocks.SysToMem(evCycle[nextSchedEvent]) == nextSchedCycle.c
      ensures forall e | 0 <= e < |evState| :: evState[e] == QUEUED <==> e == nextSchedEvent
    {
    }

    /** When nothing waits, every request that came in has been answered, as often as it came. */
    lemma IdleHasAnswered(id: int)
      requires Valid() && !Pending()
      ensures Answers(responses, id) == Times(arrived, id)
    {
      assert Known(Snap(), overflowQueue, id) == Times(arrived, id);
    }

    /** A request that came once is never answered twice. */
    lemma AnsweredOnce(id: int)
      requires Valid() && Times(arrived, id) == 1
      ensures Answers(responses, id) <= 1
      ensures Answers(responses, id) == 1 <==>
                && (forall r | r in overflowQueue :: r.id != id)
                && (forall r | r in rd.queue + wr.queue :: r.write || r.id != id)
    {
      assert Known(Snap(), overflowQueue, id) == 1;
      WaitsNone(overflowQueue, id, true);
      WaitsNone(rd.queue, id, false);
      WaitsNone(wr.queue, id, false);
      assert forall r :: r in rd.queue + wr.queue <==> r in rd.queue || r in wr.queue;
    }

    method RecycleEvent(e: int)
      requires e != nextSchedEvent && e !in eventFreelist
      modifies this`eventFreelist
      ensures eventFreelist == [e] + old(eventFreelist)
    {
      eventFreelist := [e] + eventFreelist;
    }
  }

  /** The refresh, bank by bank. */
  method RefreshBanks(g: Tech, t: Timing, memCycle: int) returns (t': Timing)
    requires g.Ok() && t.Shaped(g)
    ensures t' == Refresh(g, t, memCycle)
  {
    var minRefreshCycle := memCycle;
    var i := 0;
    while i < |t.banks|
      invariant 0 <= i <= |t.banks| && minRefreshCycle == Busy(t.banks[..i], memCycle)
    {
      assert t.banks[..i + 1][..i] == t.banks[..i];
      minRefreshCycle := Max(minRefreshCycle, Max(t.banks[i].minPre, t.banks[i].lastCmd));
      i := i + 1;
    }
    assert t.banks[..i] == t.banks;
    BusyFrom(t.banks, memCycle);
    assert minRefreshCycle >= memCycle;
    var refreshDoneCycle := minRefreshCycle + g.tRFC;
    assert g.tRFC >= g.tRP;
    var banks :=
      seq(|t.banks|, b requires 0 <= b < |t.banks| => t.banks[b].(minPre := refreshDoneCycle - g.tRP, open := false));
    assert banks == Refresh(g, t, memCycle).banks;
    t' := t.(banks := banks);
  }
}
