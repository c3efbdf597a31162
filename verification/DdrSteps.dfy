/** The steps of the DRAM controller on values: a request is queued, the favoured queue serves one, an overflowed
    request is taken in, and when to try next. No request is lost, and none is answered twice.
 */
module DdrSteps {
  import opened Arith
  import opened DdrQueue
  import opened DdrTiming
  import opened DdrClock
  import opened DdrLanes

  ghost predicate InBanks(q: Queue, n: int) {
    forall i | 0 <= i < |q| :: 0 <= q[i].bank < n
  }

  /** What does not change, and the state without events and overflowed requests. A response is a request and the
      system cycle with which its event's done is called. */
  datatype Setup = Setup(g: Tech, clocks: Clocks, depth: nat, limit: nat, deferred: bool, closed: bool, latency: nat)

  datatype Core = Core(timing: Timing, rd: Lane, wr: Lane, responses: seq<(int, int)>, trace: seq<Cmd>) {
    predicate Pending() {
      |rd.queue| > 0 || |wr.queue| > 0
    }

    /** Writes go first if their queue is getting full, or the last command was a write and some are left. */
    predicate FavoursWrites(depth: nat) {
      |rd.queue| == 0 || |wr.queue| > 3 * depth / 4 || (timing.lastWrite && |wr.queue| > depth / 4)
    }

    ghost predicate Ok(s: Setup) {
      && TimingOk(s.g, timing, trace) && rd.Ok(s.g, s.limit) && wr.Ok(s.g, s.limit) && s.clocks.Ok()
      && s.depth >= 1 && |rd.queue| <= s.depth && |wr.queue| <= s.depth
    }
  }

  /** Nothing queued, nothing issued. */
  function Fresh(s: Setup): Core
    requires s.g.Ok()
  {
    var empty := Lane([], seq(|s.g.rankOf|, _ => []));
    Core(Start(s.g), empty, empty, [], [])
  }

  /** A request joins its queue and its bank's list, as arriving now; a write is answered at once. */
  function Queued(s: Setup, x: Core, req: Request, cur: int): Core
    requires s.clocks.Ok() && 0 <= req.bank < |x.timing.banks| == |x.rd.lists| == |x.wr.lists|
  {
    var now, b := req.(arrival := cur), RowOf(x.timing.banks[req.bank]);
    var y :=
      if s.deferred && req.write then x.(wr := AddedTo(x.wr, now, s.limit, b))
      else x.(rd := AddedTo(x.rd, now, s.limit, b));
    if req.write then y.(responses := y.responses + [(req.id, s.clocks.MemToSys(cur))]) else y
  }

  /** The lane has one request more, in its own bank's list too, with its place in the run of hits filled in. */
  ghost predicate Joined(lane: Lane, lane': Lane, r: Request) {
    && |lane'.queue| == |lane.queue| + 1 && lane'.queue[..|lane.queue|] == lane.queue
    && var q := lane'.queue[|lane.queue|];
    && q == r.(hitSeq := q.hitSeq) && |lane'.lists| == |lane.lists| && 0 <= r.bank < |lane.lists|
    && (forall b | 0 <= b < |lane.lists| && b != r.bank :: lane'.lists[b] == lane.lists[b])
    && q in lane'.lists[r.bank]
  }

  /** Only deferred writes join the write queue; all others join the read queue, as arriving now. */
  lemma QueuedJoins(s: Setup, x: Core, req: Request, cur: int)
    requires s.clocks.Ok() && 0 <= req.bank < |x.timing.banks| == |x.rd.lists| == |x.wr.lists|
    ensures var y := Queued(s, x, req, cur);
      && y.timing == x.timing && y.trace == x.trace
      && if s.deferred && req.write then y.rd == x.rd && Joined(x.wr, y.wr, req.(arrival := cur))
         else y.wr == x.wr && Joined(x.rd, y.rd, req.(arrival := cur))
  {
    var lane := if s.deferred && req.write then x.wr else x.rd;
    var r, b := req.(arrival := cur), RowOf(x.timing.banks[req.bank]);
    InsertedMultiset(lane.lists[r.bank], r, s.limit, b);
    assert r.(hitSeq := HitSeq(lane.lists[r.bank], r.row, s.limit, b))
        in multiset(AddedTo(lane, r, s.limit, b).lists[r.bank]);
  }

  /** It becomes the first of its bank. */
  predicate FirstOfBank(s: Setup, x: Core, req: Request)
    requires 0 <= req.bank < |x.rd.lists| == |x.wr.lists|
  {
    (if s.deferred && req.write then x.wr.lists else x.rd.lists)[req.bank] == []
  }

  /** The response to a served read: the end of its burst, less the latency that its event adds itself. */
  function Reply(s: Setup, r: Request, t': Timing): seq<(int, int)>
    requires s.clocks.Ok()
  {
    if r.write then [] else [(r.id, s.clocks.MemToSys(t'.minResp) - s.clocks.MemToSys(s.g.tCL + s.g.tBL - 1))]
  }

  /** What trySchedule does: nothing if nothing waits or the data bus is taken too far ahead; otherwise the favoured
      lane serves its oldest ready request, if it has one. */
  ghost predicate Tried(s: Setup, x: Core, cur: int, served: Served, y: Core) {
    && x.Ok(s)
    && if !x.Pending() || cur + s.g.tCL < x.timing.minResp then served == None && y == x
       else FavouredServed(s, x, cur, served, y)
  }

  /** The last command of the trace is the request's, and a read is answered so that, with the event's own latency, the
      answer arrives when the data burst ends and the controller's latency is over. */
  ghost predicate AnswersAtEnd(s: Setup, r: Request, before: seq<(int, int)>, after: seq<(int, int)>, trace: seq<Cmd>)
    requires s.clocks.Ok()
  {
    && trace != []
    && var col := trace[|trace| - 1];
    && col.Col? && col.bank == r.bank && col.row == r.row && col.write == r.write
    && if r.write then after == before
       else
         && |after| == |before| + 1 && after[..|before|] == before && after[|before|].0 == r.id
         && after[|before|].1 + s.clocks.MemToSys(s.g.tCL + s.g.tBL - 1) + s.latency
              == s.clocks.MemToSys(BurstEnd(s.g, col)) + s.latency
  }

  lemma AnswerOf(s: Setup, x: Core, r: Request, cur: int, autoClose: bool)
    requires s.g.Ok() && x.timing.Shaped(s.g) && 0 <= r.bank < |x.timing.banks| && s.clocks.Ok()
    ensures AnswersAtEnd(s, r, x.responses, x.responses + Reply(s, r, Issue(s.g, x.timing, r, cur, autoClose)),
                         x.trace + Issued(s.g, x.timing, r, cur))
  {
    var issued := Issued(s.g, x.timing, r, cur);
    assert issued[|issued| - 1] == ColOf(s.g, x.timing, r, cur);
  }

  lemma TriedAnswers(s: Setup, x: Core, cur: int, served: Served, y: Core)
    requires Tried(s, x, cur, served, y) && served.One?
    ensures var lane := if y.rd == x.rd then x.wr else x.rd;
            served.index < |lane.queue| && AnswersAtEnd(s, lane.queue[served.index], x.responses, y.responses, y.trace)
  {
    var lane := if x.FavoursWrites(s.depth) then x.wr else x.rd;
    var r := lane.queue[served.index];
    AnswerOf(s, x, r, cur, s.closed && !lane.MoreHits(r.bank));
    if !x.FavoursWrites(s.depth) {
      assert |y.rd.queue| < |x.rd.queue|;
    }
  }

  ghost predicate FavouredServed(s: Setup, x: Core, cur: int, served: Served, y: Core)
    requires x.Ok(s)
  {
    var writes := x.FavoursWrites(s.depth);
    var lane, lane' := if writes then x.wr else x.rd, if writes then y.wr else y.rd;
    && (if writes then y.rd == x.rd else y.wr == x.wr)
    && ServedOk(s.g, x.timing, x.trace, lane, cur, s.closed, served, y.timing, y.trace, lane')
    && y.responses == x.responses + if served.One? then Reply(s, lane.queue[served.index], y.timing) else []
  }

  /** How the queues' fill decides whose turn it is, in exact fractions of their depth. */
  predicate WritesFirst(rds: nat, wrs: nat, lastWrite: bool, depth: nat) {
    rds == 0 || 4 * wrs > 3 * depth || (lastWrite && 4 * wrs > depth)
  }

  // ---------------------------------------------------------------- requests and answers

  /** Deferred writes wait in a queue of their own, and nothing else does. */
  ghost predicate Sorted(s: Setup, x: Core) {
    && (forall r | r in x.wr.queue :: r.write && s.deferred)
    && (s.deferred ==> forall r | r in x.rd.queue :: !r.write)
  }

  /** How many of the queue's requests have this number; its writes are left out, unless all are asked for. */
  ghost function Waits(q: Queue, id: int, all: bool): nat {
    if q == [] then 0
    else
      var r := q[|q| - 1];
      Waits(q[..|q| - 1], id, all) + if r.id == id && (all || !r.write) then 1 else 0
  }

  ghost function Answers(responses: seq<(int, int)>, id: int): nat {
    if responses == [] then 0
    else Answers(responses[..|responses| - 1], id) + if responses[|responses| - 1].0 == id then 1 else 0
  }

  ghost function Times(ids: seq<int>, id: int): nat {
    if ids == [] then 0 else Times(ids[..|ids| - 1], id) + if ids[|ids| - 1] == id then 1 else 0
  }

  /** The answers so far, the overflowed requests, and the reads that wait. */
  ghost function Known(x: Core, ovf: Queue, id: int): nat {
    Answers(x.responses, id) + Waits(ovf, id, true) + Waits(x.rd.queue, id, false) + Waits(x.wr.queue, id, false)
  }

  /** Every request that arrived has been answered, overflows, or is a read that waits, and is only one of these. */
  ghost predicate Sound(s: Setup, x: Core, ovf: Queue, arrived: seq<int>) {
    Sorted(s, x) && forall id :: Known(x, ovf, id) == Times(arrived, id)
  }

  lemma {:induction false} WaitsConcat(q: Queue, p: Queue, id: int, all: bool)
    ensures Waits(q + p, id, all) == Waits(q, id, all) + Waits(p, id, all)
  {
    if p == [] {
      assert q + p == q;
    } else {
      WaitsConcat(q, p[..|p| - 1], id, all);
      assert (q + p)[..|q + p| - 1] == q + p[..|p| - 1];
    }
  }

  lemma WaitsOne(q: Queue, r: Request, id: int, all: bool)
    ensures Waits(q + [r], id, all) == Waits(q, id, all) + if r.id == id && (all || !r.write) then 1 else 0
  {
    assert (q + [r])[..|q|] == q;
  }

  lemma WaitsWithout(q: Queue, i: int, id: int, all: bool)
    requires 0 <= i < |q|
    ensures Waits(q, id, all)
         == Waits(q[..i] + q[i + 1..], id, all) + if q[i].id == id && (all || !q[i].write) then 1 else 0
  {
    assert q == q[..i] + [q[i]] + q[i + 1..];
    WaitsConcat(q[..i] + [q[i]], q[i + 1..], id, all);
    WaitsConcat(q[..i], q[i + 1..], id, all);
    WaitsOne(q[..i], q[i], id, all);
  }

  lemma {:induction false} WaitsNone(q: Queue, id: int, all: bool)
    ensures Waits(q, id, all) == 0 <==> forall r | r in q :: r.id != id || (r.write && !all)
  {
    if q != [] {
      WaitsNone(q[..|q| - 1], id, all);
      assert q == q[..|q| - 1] + [q[|q| - 1]];
    }
  }

  lemma AnswersOne(responses: seq<(int, int)>, a: (int, int), id: int)
    ensures Answers(responses + [a], id) == Answers(responses, id) + if a.0 == id then 1 else 0
  {
    assert (responses + [a])[..|responses|] == responses;
  }

  lemma TimesOne(ids: seq<int>, a: int, id: int)
    ensures Times(ids + [a], id) == Times(ids, id) + if a == id then 1 else 0
  {
    assert (ids + [a])[..|ids|] == ids;
  }

  /** A queued request is known once, as an answered write or a read that waits. */
  lemma QueuedKnown(s: Setup, x: Core, req: Request, cur: int, ovf: Queue, id: int)
    requires s.clocks.Ok() && 0 <= req.bank < |x.timing.banks| == |x.rd.lists| == |x.wr.lists|
    ensures Known(Queued(s, x, req, cur), ovf, id) == Known(x, ovf, id) + if req.id == id then 1 else 0
  {
    var lane := if s.deferred && req.write then x.wr else x.rd;
    var now, b := req.(arrival := cur), RowOf(x.timing.banks[req.bank]);
    var r := now.(hitSeq := HitSeq(lane.lists[req.bank], req.row, s.limit, b));
    WaitsOne(lane.queue, r, id, false);
    AnswersOne(x.responses, (req.id, s.clocks.MemToSys(cur)), id);
  }

  lemma QueuedSorted(s: Setup, x: Core, req: Request, cur: int)
    requires s.clocks.Ok() && 0 <= req.bank < |x.timing.banks| == |x.rd.lists| == |x.wr.lists|
    requires Sorted(s, x)
    ensures Sorted(s, Queued(s, x, req, cur))
  {
  }

  lemma QueuedSound(s: Setup, x: Core, req: Request, cur: int, ovf: Queue, arrived: seq<int>)
    requires s.clocks.Ok() && 0 <= req.bank < |x.timing.banks| == |x.rd.lists| == |x.wr.lists|
    requires Sound(s, x, ovf, arrived)
    ensures Sound(s, Queued(s, x, req, cur), ovf, arrived + [req.id])
  {
    QueuedSorted(s, x, req, cur);
    forall id ensures Known(Queued(s, x, req, cur), ovf, id) == Times(arrived + [req.id], id) {
      QueuedKnown(s, x, req, cur, ovf, id);
      TimesOne(arrived, req.id, id);
    }
  }

  lemma OverflowSound(s: Setup, x: Core, ovf: Queue, r: Request, arrived: seq<int>)
    requires Sound(s, x, ovf, arrived)
    ensures Sound(s, x, ovf + [r], arrived + [r.id])
  {
    forall id ensures Known(x, ovf + [r], id) == Times(arrived + [r.id], id) {
      WaitsOne(ovf, r, id, true);
      TimesOne(arrived, r.id, id);
    }
  }

  lemma RefilledSound(s: Setup, x: Core, ovf: Queue, cur: int, next: When, y: Core, ovf': Queue, next': When,
                      arrived: seq<int>)
    requires Refilled(s, x, ovf, cur, next, y, ovf', next') && Sound(s, x, ovf, arrived)
    ensures Sound(s, y, ovf', arrived)
  {
    if |x.rd.queue| < s.depth && |x.wr.queue| < s.depth && ovf != [] {
      QueuedSorted(s, x, ovf[0], cur);
      forall id ensures Known(y, ovf', id) == Times(arrived, id) {
        WaitsWithout(ovf, 0, id, true);
        assert ovf[..0] + ovf[1..] == ovf[1..];
        QueuedKnown(s, x, ovf[0], cur, ovf', id);
      }
    }
  }

  /** Serving a read answers it, once. */
  lemma TriedSound(s: Setup, x: Core, cur: int, served: Served, y: Core, ovf: Queue, arrived: seq<int>)
    requires Tried(s, x, cur, served, y) && Sound(s, x, ovf, arrived)
    ensures Sound(s, y, ovf, arrived)
  {
    if served.One? {
      TriedSorted(s, x, cur, served, y);
      forall id ensures Known(y, ovf, id) == Times(arrived, id) {
        TriedKnown(s, x, cur, served, y, ovf, id);
      }
    } else {
      assert x.responses + [] == x.responses;
      assert y == x;
    }
  }

  lemma TriedSorted(s: Setup, x: Core, cur: int, served: Served, y: Core)
    requires Tried(s, x, cur, served, y) && served.One? && Sorted(s, x)
    ensures Sorted(s, y)
  {
    var q := (if x.FavoursWrites(s.depth) then x.wr else x.rd).queue;
    assert forall r | r in q[..served.index] + q[served.index + 1..] :: r in q;
  }

  lemma TriedKnown(s: Setup, x: Core, cur: int, served: Served, y: Core, ovf: Queue, id: int)
    requires Tried(s, x, cur, served, y) && served.One?
    ensures Known(y, ovf, id) == Known(x, ovf, id)
  {
    var q := (if x.FavoursWrites(s.depth) then x.wr else x.rd).queue;
    var r := q[served.index];
    WaitsWithout(q, served.index, id, false);
    if r.write {
      assert y.responses == x.responses;
    } else {
      AnswersOne(x.responses, Reply(s, r, y.timing)[0], id);
    }
  }

  /** The two thresholds make writes go in bursts: once started, they go on until a quarter of the queue is left; and
      reads, once preferred, until writes fill three quarters. */
  lemma WritesGoInBursts(s: Setup, x: Core, cur: int, served: Served, y: Core)
    requires Tried(s, x, cur, served, y) && served.One? && Sorted(s, x)
    ensures x.FavoursWrites(s.depth) <==> WritesFirst(|x.rd.queue|, |x.wr.queue|, x.timing.lastWrite, s.depth)
    ensures y.rd.queue != [] ==>
              if y.wr == x.wr then y.FavoursWrites(s.depth) <==> 4 * |y.wr.queue| > 3 * s.depth
              else |y.wr.queue| == |x.wr.queue| - 1 && (y.FavoursWrites(s.depth) <==> 4 * |y.wr.queue| > s.depth)
  {
    var lane := if x.FavoursWrites(s.depth) then x.wr else x.rd;
    var r := lane.queue[served.index];
    assert r in lane.queue && y.timing.lastWrite == r.write;
    assert x.wr.queue == [] || x.wr.queue[0] in x.wr.queue;
    assert x.FavoursWrites(s.depth) ==> r.write && |y.wr.queue| == |x.wr.queue| - 1;
    assert !x.FavoursWrites(s.depth) ==> y.wr == x.wr && (r.write ==> x.wr.queue == []);
  }

  // ---------------------------------------------------------------- the next try

  /** When to try next after an overflowed request has been taken in: at the first cycle that the data bus allows,
      if it is the first of its bank and that is earlier than planned. */
  function NextTry(g: Tech, t: Timing, first: bool, cur: int, next: When): When {
    var minQueued := Max(cur, t.minResp - g.tCL - g.tBL);
    if first && Later(next, minQueued) then At(minQueued) else next
  }

  /** The same, with the request's own command cycle waited for, as enqueue does it. */
  function PatientTry(g: Tech, t: Timing, r: Request, first: bool, cur: int, next: When): When
    requires g.Ok() && t.Shaped(g) && 0 <= r.bank < |t.banks|
  {
    var min := Max(Max(cur, t.minResp - g.tCL - g.tBL), FindMinCmdCycle(g, t, r));
    if first && Later(next, min) then At(min) else next
  }

  /** The controller wakes up no later than it has to, and earlier exactly if an overflowed request that comes first
      in its bank has to wait longer for its bank than for the data bus. */
  lemma TryIsEarly(g: Tech, t: Timing, r: Request, first: bool, cur: int, next: When)
    requires g.Ok() && t.Shaped(g) && 0 <= r.bank < |t.banks|
    ensures var a, b := NextTry(g, t, first, cur, next), PatientTry(g, t, r, first, cur, next);
      && (b.At? ==> a.At? && a.c <= b.c)
      && (a != b <==> var m := Max(cur, t.minResp - g.tCL - g.tBL);
                      first && Later(next, m) && FindMinCmdCycle(g, t, r) > m)
  {
  }

  /** Plans the next try after an overflowed request is taken in. The second test undoes what the first waits for. */
  method PlanOverflow(g: Tech, t: Timing, r: Request, first: bool, cur: int, next: When) returns (next': When)
    requires g.Ok() && t.Shaped(g) && 0 <= r.bank < |t.banks|
    ensures next' == NextTry(g, t, first, cur, next)
  {
    next' := next;
    if first {
      var minQueued := Max(cur, t.minResp - g.tCL - g.tBL);
      if Later(next', minQueued) {
        next' := At(Max(minQueued, FindMinCmdCycle(g, t, r)));
      }
      if Later(next', minQueued) {
        next' := At(minQueued);
      }
    }
  }

  /** What tick does with the overflow list ovf once it has tried to serve a request. */
  ghost predicate Refilled(s: Setup, x: Core, ovf: Queue, cur: int, next: When, y: Core, ovf': Queue, next': When) {
    && x.Ok(s) && InBanks(ovf, |s.g.rankOf|)
    && if |x.rd.queue| < s.depth && |x.wr.queue| < s.depth && ovf != [] then
         && ovf' == ovf[1..] && y == Queued(s, x, ovf[0], cur)
         && next' == NextTry(s.g, x.timing, FirstOfBank(s, x, ovf[0]), cur, next)
       else ovf' == ovf && y == x && next' == next
  }
}
