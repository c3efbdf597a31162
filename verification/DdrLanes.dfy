/** A read or write queue of the DRAM controller: requests in arrival order, split into one list per bank in
    first-ready order; and the choice and the service of one request.
 */
module DdrLanes {
  import opened Arith
  import opened DdrQueue
  import opened DdrTiming
  import ActWindow

  // ---------------------------------------------------------------- the queue and its bank lists

  /** The requests of one bank, in arrival order. */
  function OfBank(queue: Queue, bank: int): Queue {
    if queue == [] then []
    else
      var r := queue[|queue| - 1];
      if r.bank == bank then OfBank(queue[..|queue| - 1], bank) + [r] else OfBank(queue[..|queue| - 1], bank)
  }

  /** Each bank's list holds that bank's requests of the queue, in its own order. */
  ghost predicate Split(queue: Queue, lists: seq<Queue>, limit: int) {
    && (forall i | 0 <= i < |queue| :: 0 <= queue[i].bank < |lists|)
    && (forall b | 0 <= b < |lists| :: multiset(lists[b]) == multiset(OfBank(queue, b)) && Ordered(lists[b], limit))
  }

  lemma {:induction false} OfBankConcat(q: Queue, p: Queue, bank: int)
    ensures OfBank(q + p, bank) == OfBank(q, bank) + OfBank(p, bank)
  {
    if p == [] {
      assert q + p == q;
      assert OfBank(q, bank) + [] == OfBank(q, bank);
    } else {
      var p0, r := p[..|p| - 1], p[|p| - 1];
      OfBankConcat(q, p0, bank);
      assert (q + p)[..|q + p| - 1] == q + p0;
      assert OfBank(q, bank) + (OfBank(p0, bank) + [r]) == OfBank(q, bank) + OfBank(p0, bank) + [r];
    }
  }

  lemma OfBankOne(r: Request, bank: int)
    ensures OfBank([r], bank) == if r.bank == bank then [r] else []
  {
    assert [r][..0] == [];
  }

  lemma {:induction false} OfBankMember(q: Queue, bank: int, r: Request)
    ensures r in OfBank(q, bank) <==> r in q && r.bank == bank
  {
    if q != [] {
      OfBankMember(q[..|q| - 1], bank, r);
      assert q == q[..|q| - 1] + [q[|q| - 1]];
    }
  }

  /** A queued request's bank list is not empty, and its first request is in the queue. */
  lemma FrontIsQueued(queue: Queue, lists: seq<Queue>, limit: int, r: Request)
    requires Split(queue, lists, limit) && r in queue
    ensures 0 <= r.bank < |lists| && lists[r.bank] != [] && lists[r.bank][0] in queue && lists[r.bank][0].bank == r.bank
  {
    var b := r.bank;
    OfBankMember(queue, b, r);
    assert r in multiset(OfBank(queue, b));
    assert r in multiset(lists[b]);
    var f := lists[b][0];
    assert f in multiset(lists[b]);
    assert f in OfBank(queue, b);
    OfBankMember(queue, b, f);
  }

  lemma {:induction false} InsertedMultiset(q: Queue, r: Request, limit: int, s: RowState)
    ensures multiset(Insert(q, r, limit, s)) == multiset(q) + multiset{r.(hitSeq := HitSeq(q, r.row, limit, s))}
  {
    var p := Place(q, r.row, limit);
    assert q == q[..p] + q[p..];
  }

  lemma AddSplit(queue: Queue, lists: seq<Queue>, limit: int, r: Request, s: RowState)
    requires Split(queue, lists, limit) && 0 <= r.bank < |lists| && limit >= 0 && s.hits >= 0
    ensures var r' := r.(hitSeq := HitSeq(lists[r.bank], r.row, limit, s));
            Split(queue + [r'], lists[r.bank := Insert(lists[r.bank], r, limit, s)], limit)
  {
    var r' := r.(hitSeq := HitSeq(lists[r.bank], r.row, limit, s));
    InsertedMultiset(lists[r.bank], r, limit, s);
    InsertOrdered(lists[r.bank], r, limit, s);
    forall b | 0 <= b < |lists|
      ensures multiset(OfBank(queue + [r'], b))
           == multiset(OfBank(queue, b)) + if b == r.bank then multiset{r'} else multiset{}
    {
      OfBankConcat(queue, [r'], b);
      OfBankOne(r', b);
    }
  }

  lemma ServeSplit(queue: Queue, lists: seq<Queue>, limit: int, i: int)
    requires Split(queue, lists, limit) && 0 <= i < |queue|
    requires 0 <= queue[i].bank < |lists| && lists[queue[i].bank] != [] && lists[queue[i].bank][0] == queue[i]
    ensures Split(queue[..i] + queue[i + 1..], lists[queue[i].bank := lists[queue[i].bank][1..]], limit)
  {
    var r := queue[i];
    var c := r.bank;
    ServeOrdered(lists[c], limit);
    assert lists[c] == [r] + lists[c][1..];
    assert multiset(lists[c]) == multiset{r} + multiset(lists[c][1..]);
    var queue', lists' := queue[..i] + queue[i + 1..], lists[c := lists[c][1..]];
    forall k | 0 <= k < |queue'| ensures 0 <= queue'[k].bank < |lists'| {
      assert queue'[k] == queue[if k < i then k else k + 1];
    }
    forall b | 0 <= b < |lists|
      ensures multiset(lists'[b]) == multiset(OfBank(queue', b)) && Ordered(lists'[b], limit)
    {
      ServeOfBank(queue, i, b);
      assert multiset(lists[b]) == multiset(OfBank(queue, b)) && Ordered(lists[b], limit);
      if b == c {
        Cancel(multiset(lists[c][1..]), multiset(OfBank(queue', c)), r);
      }
    }
  }

  lemma Cancel(x: multiset<Request>, y: multiset<Request>, r: Request)
    requires multiset{r} + x == y + multiset{r}
    ensures x == y
  {
    assert x == multiset{r} + x - multiset{r};
    assert y == y + multiset{r} - multiset{r};
  }

  lemma ServeOfBank(queue: Queue, i: int, b: int)
    requires 0 <= i < |queue|
    ensures multiset(OfBank(queue, b)) == multiset(OfBank(queue[..i] + queue[i + 1..], b))
              + if b == queue[i].bank then multiset{queue[i]} else multiset{}
  {
    var r := queue[i];
    assert queue == queue[..i] + [r] + queue[i + 1..];
    OfBankConcat(queue[..i] + [r], queue[i + 1..], b);
    OfBankConcat(queue[..i], [r], b);
    OfBankConcat(queue[..i], queue[i + 1..], b);
    OfBankOne(r, b);
  }

  // ---------------------------------------------------------------- the choice

  /** A cycle, or the largest number, which stands for none. */
  datatype When = Never | At(c: int)

  predicate Later(w: When, c: int) {
    w.Never? || w.c > c
  }

  /** The request is the first in its bank's list. */
  predicate First(lists: seq<Queue>, r: Request) {
    0 <= r.bank < |lists| && lists[r.bank] != [] && lists[r.bank][0] == r
  }

  /** First in its bank, and the bank can take it. */
  predicate Ready(g: Tech, t: Timing, lists: seq<Queue>, r: Request, cur: int)
    requires g.Ok() && t.Shaped(g) && |lists| == |t.banks|
  {
    First(lists, r) && FindMinCmdCycle(g, t, r) <= cur
  }

  /** The oldest request that is ready, if found is not -1; otherwise none is, and the first one will be at min. */
  ghost predicate IsChoice(g: Tech, t: Timing, queue: Queue, lists: seq<Queue>, cur: int, found: int, min: When)
    requires g.Ok() && t.Shaped(g) && |lists| == |t.banks|
  {
    && -1 <= found < |queue|
    && NoneReady(g, t, queue, if found == -1 then |queue| else found, lists, cur)
    && (found >= 0 ==> Ready(g, t, lists, queue[found], cur))
    && (found == -1 && queue != [] ==> min.At? && min.c > cur)
    && (found == -1 ==> IsEarliest(g, t, queue, |queue|, lists, min))
  }

  /** The first n requests' bank fronts can go at min at the earliest. */
  ghost predicate IsEarliest(g: Tech, t: Timing, queue: Queue, n: int, lists: seq<Queue>, min: When)
    requires g.Ok() && t.Shaped(g) && |lists| == |t.banks| && 0 <= n <= |queue|
  {
    && (forall j | 0 <= j < n && First(lists, queue[j]) :: min.At? && min.c <= FindMinCmdCycle(g, t, queue[j]))
    && (min.At? ==> exists j | 0 <= j < n && First(lists, queue[j]) :: min.c == FindMinCmdCycle(g, t, queue[j]))
  }

  ghost predicate NoneReady(g: Tech, t: Timing, queue: Queue, n: int, lists: seq<Queue>, cur: int)
    requires g.Ok() && t.Shaped(g) && |lists| == |t.banks| && 0 <= n <= |queue|
  {
    forall j | 0 <= j < n :: !Ready(g, t, lists, queue[j], cur)
  }

  lemma EarliestStep(g: Tech, t: Timing, queue: Queue, n: int, lists: seq<Queue>, min: When, min': When)
    requires g.Ok() && t.Shaped(g) && |lists| == |t.banks| && 0 <= n < |queue|
    requires forall j | 0 <= j < |queue| :: 0 <= queue[j].bank < |lists|
    requires IsEarliest(g, t, queue, n, lists, min)
    requires if First(lists, queue[n]) && Later(min, FindMinCmdCycle(g, t, queue[n])) then
               min' == At(FindMinCmdCycle(g, t, queue[n]))
             else min' == min
    ensures IsEarliest(g, t, queue, n + 1, lists, min')
  {
    if First(lists, queue[n]) {
      assert min'.At? && min'.c <= FindMinCmdCycle(g, t, queue[n]);
    }
  }

  /** Looks through the queue for the oldest request that is ready. */
  method FindReady(g: Tech, t: Timing, queue: Queue, lists: seq<Queue>, limit: int, cur: int)
    returns (found: int, min: When)
    requires g.Ok() && t.Shaped(g) && |lists| == |t.banks| && Split(queue, lists, limit)
    ensures IsChoice(g, t, queue, lists, cur, found, min)
  {
    min := Never;
    var i := 0;
    while i < |queue|
      invariant 0 <= i <= |queue|
      invariant NoneReady(g, t, queue, i, lists, cur)
      invariant IsEarliest(g, t, queue, i, lists, min) && (min.At? ==> min.c > cur)
    {
      var r := queue[i];
      ghost var earlier := min;
      if First(lists, r) {
        var c := FindMinCmdCycle(g, t, r);
        if c <= cur {
          return i, min;
        }
        if Later(min, c) {
          min := At(c);
        }
      }
      EarliestStep(g, t, queue, i, lists, earlier, min);
      i := i + 1;
    }
    found := -1;
    if queue != [] {
      SomeFirst(queue, lists, limit);
    }
  }

  lemma SomeFirst(queue: Queue, lists: seq<Queue>, limit: int)
    requires Split(queue, lists, limit) && queue != []
    ensures exists j | 0 <= j < |queue| :: First(lists, queue[j])
  {
    FrontIsQueued(queue, lists, limit, queue[0]);
    var f := lists[queue[0].bank][0];
    var j :| 0 <= j < |queue| && queue[j] == f;
    assert First(lists, queue[j]);
  }

  // ---------------------------------------------------------------- issuing, step by step

  /** Opens the request's row: the bank and the rank's activation window after the ACT. */
  method Activate(g: Tech, t: Timing, r: Request) returns (bank: Bank, win: seq<seq<int>>)
    requires g.Ok() && t.Shaped(g) && 0 <= r.bank < |t.banks|
    ensures var b, act := t.banks[r.bank], ActCycle(g, t, r);
      && bank == b.(open := true, openRow := r.row, lastAct := act,
                    minPre := if b.open then PreCycle(b, r) + g.tRAS else b.minPre)
      && win == t.win[g.rankOf[r.bank] := ActWindow.Added(t.win[g.rankOf[r.bank]], act)]
  {
    bank, win := t.banks[r.bank], t.win;
    var preIssued := bank.open;
    var preCycle := if !bank.open then bank.minPre else Max(r.arrival, bank.minPre);
    var k := g.rankOf[r.bank];
    var actCycle := Max(r.arrival, Max(preCycle + g.tRP, bank.lastAct + g.tRRD));
    actCycle := Max(actCycle, win[k][0] + g.tFAW);
    bank := bank.(open := true, openRow := r.row);
    if preIssued {
      bank := bank.(minPre := preCycle + g.tRAS);
    }
    assert win[k][0] <= actCycle;
    win := win[k := ActWindow.Added(win[k], actCycle)];
    bank := bank.(lastAct := actCycle);
  }

  /** Computes the commands of a request that its bank can take, and updates the bounds. */
  method IssueCommands(g: Tech, t: Timing, r: Request, curCycle: int, autoClose: bool) returns (t': Timing)
    requires CanIssue(g, t, r, curCycle)
    ensures t' == Issue(g, t, r, curCycle, autoClose)
  {
    LaterThanLast(g, t, r, curCycle);
    var bank, win := t.banks[r.bank], t.win;
    var minCmdCycle := Max(curCycle, t.minResp - g.tCL);
    if t.lastWrite && !r.write {
      minCmdCycle := Max(minCmdCycle, t.minResp + g.tWTR);
    }
    if !(r.row == bank.openRow && bank.open) {
      bank, win := Activate(g, t, r);
      minCmdCycle := Max(minCmdCycle, bank.lastAct + g.tRCD);
    }
    var cmdCycle := Max(minCmdCycle, t.minResp - g.tCL);
    assert cmdCycle == CmdCycle(g, t, r, curCycle);
    var minRespCycle := cmdCycle + g.tCL + g.tBL;
    if autoClose {
      bank := bank.(open := false);
    }
    var recovery := if r.write then minRespCycle + g.tWR else cmdCycle + g.tRTP;
    bank := bank.(minPre := Max(bank.minPre, Max(bank.lastAct + g.tRAS, recovery)));
    assert bank.lastCmd < cmdCycle;
    bank := bank.(lastCmd := cmdCycle, curRowHits := r.hitSeq);
    t' := Timing(t.banks[r.bank := bank], minRespCycle, r.write, win);
  }

  ghost predicate HitsOk(banks: seq<Bank>) {
    forall b | 0 <= b < |banks| :: banks[b].curRowHits >= 0
  }

  ghost predicate TimingOk(g: Tech, t: Timing, trace: seq<Cmd>) {
    Keeps(g, t, trace) && HitsOk(t.banks) && t.minResp >= g.tCL + g.tBL + 1
  }

  lemma IssueOk(g: Tech, t: Timing, trace: seq<Cmd>, r: Request, cur: int, autoClose: bool)
    requires TimingOk(g, t, trace) && CanIssue(g, t, r, cur) && r.hitSeq >= 0
    ensures TimingOk(g, Issue(g, t, r, cur, autoClose), trace + Issued(g, t, r, cur))
    ensures Issue(g, t, r, cur, autoClose).minResp - g.tCL >= cur
  {
    IssueKeeps(g, t, trace, r, cur, autoClose);
    LaterThanLast(g, t, r, cur);
  }

  // ---------------------------------------------------------------- a lane: one queue with its bank lists

  /** A read or write queue, in arrival order, and the bank lists it is split into. */
  datatype Lane = Lane(queue: Queue, lists: seq<Queue>) {
    ghost predicate Ok(g: Tech, limit: int) {
      |lists| == |g.rankOf| && Split(queue, lists, limit)
    }

    /** Without the request at index i, the first of its bank. */
    function Removed(i: int): Lane
      requires 0 <= i < |queue| && First(lists, queue[i])
    {
      Lane(queue[..i] + queue[i + 1..], lists[queue[i].bank := lists[queue[i].bank][1..]])
    }

    /** A row hit follows in the bank's list. */
    predicate MoreHits(bank: int)
      requires 0 <= bank < |lists|
    {
      |lists[bank]| > 1 && lists[bank][1].hitSeq != 0
    }
  }

  lemma RemovedOk(g: Tech, lane: Lane, limit: int, i: int)
    requires lane.Ok(g, limit) && 0 <= i < |lane.queue| && First(lane.lists, lane.queue[i])
    ensures lane.Removed(i).Ok(g, limit) && lane.queue[i].hitSeq >= 0
  {
    ServeSplit(lane.queue, lane.lists, limit, i);
  }

  /** What trySchedule does: nothing, or the chosen request of the favoured lane is issued and removed. */
  datatype Served = None | One(index: int)

  ghost predicate ServedOk(g: Tech, t: Timing, trace: seq<Cmd>, lane: Lane, cur: int, closedPage: bool,
                           served: Served, t': Timing, trace': seq<Cmd>, lane': Lane)
    requires g.Ok() && t.Shaped(g) && |lane.lists| == |t.banks|
  {
    match served
    case None => t' == t && trace' == trace && lane' == lane
      && NoneReady(g, t, lane.queue, |lane.queue|, lane.lists, cur)
    case One(i) =>
      && 0 <= i < |lane.queue| && Ready(g, t, lane.lists, lane.queue[i], cur)
      && (forall j | 0 <= j < i :: !Ready(g, t, lane.lists, lane.queue[j], cur))
      && lane' == lane.Removed(i)
      && t' == Issue(g, t, lane.queue[i], cur, closedPage && !lane.MoreHits(lane.queue[i].bank))
      && trace' == trace + Issued(g, t, lane.queue[i], cur)
  }

  /** The row that serving a request leaves: if a row hit comes next in the bank's list, its row stays open, whatever
      the page policy; otherwise the row is closed exactly under the closed-page policy. */
  predicate RowLeft(closedPage: bool, b: Bank, r: Request, rest: Queue) {
    && b.openRow == r.row && b.curRowHits == r.hitSeq
    && if rest != [] && rest[0].hitSeq != 0 then b.open && b.openRow == rest[0].row else b.open <==> !closedPage
  }

  /** A row hit is for the row of the request ahead of it. */
  lemma HitsRow(q: Queue, limit: int)
    requires Ordered(q, limit)
    ensures |q| > 1 && q[1].hitSeq != 0 ==> q[1].row == q[0].row
  {
    assert |q| > 1 ==> Linked(q, 1);
  }

  /** The served request's bank is left with the row open or closed as the page policy and the next request ask. */
  ghost predicate LeavesRow(closedPage: bool, lane: Lane, served: Served, t': Timing, lane': Lane)
    requires served.One?
  {
    && 0 <= served.index < |lane.queue|
    && var r := lane.queue[served.index];
    0 <= r.bank < |lane'.lists| == |t'.banks| && RowLeft(closedPage, t'.banks[r.bank], r, lane'.lists[r.bank])
  }

  /** The next try: when the data bus takes the next burst if a request was served, or else when the first bank can
      take one. */
  ghost predicate NextIs(g: Tech, t: Timing, lane: Lane, served: Served, t': Timing, next: When)
    requires g.Ok() && t.Shaped(g) && |lane.lists| == |t.banks|
  {
    if served.One? then next == At(t'.minResp - g.tCL)
    else IsEarliest(g, t, lane.queue, |lane.queue|, lane.lists, next)
  }

  ghost predicate LaneServed(g: Tech, t: Timing, trace: seq<Cmd>, lane: Lane, limit: int, cur: int, closedPage: bool,
                             served: Served, next: When, t': Timing, trace': seq<Cmd>, lane': Lane)
    requires g.Ok() && t.Shaped(g) && |lane.lists| == |t.banks|
  {
    && ServedOk(g, t, trace, lane, cur, closedPage, served, t', trace', lane')
    && TimingOk(g, t', trace') && lane'.Ok(g, limit) && |lane'.queue| <= |lane.queue|
    && next.At? && next.c >= cur && NextIs(g, t, lane, served, t', next)
    && (served.One? ==> LeavesRow(closedPage, lane, served, t', lane'))
  }

  /** trySchedule on the favoured lane: the oldest request whose bank can take it is served. */
  method ServeLane(g: Tech, t: Timing, ghost trace: seq<Cmd>, lane: Lane, limit: int, cur: int, closedPage: bool)
    returns (served: Served, next: When, t': Timing, ghost trace': seq<Cmd>, lane': Lane)
    requires TimingOk(g, t, trace) && lane.Ok(g, limit) && lane.queue != []
    ensures LaneServed(g, t, trace, lane, limit, cur, closedPage, served, next, t', trace', lane')
  {
    var found, min := FindReady(g, t, lane.queue, lane.lists, limit, cur);
    if found == -1 {
      return None, min, t, trace, lane;
    }
    var r := lane.queue[found];
    RemovedOk(g, lane, limit, found);
    IssueOk(g, t, trace, r, cur, closedPage && !lane.MoreHits(r.bank));
    HitsRow(lane.lists[r.bank], limit);
    t' := IssueCommands(g, t, r, cur, closedPage && !lane.MoreHits(r.bank));
    trace' := trace + Issued(g, t, r, cur);
    lane' := lane.Removed(found);
    served, next := One(found), At(t'.minResp - g.tCL);
  }

  /** The state of a bank's row that decides where a request of that bank goes. */
  function RowOf(b: Bank): RowState {
    RowState(b.open, b.openRow, b.curRowHits)
  }

  /** The lane with a request added, its place in the run of hits filled in. */
  function AddedTo(lane: Lane, r: Request, limit: int, b: RowState): Lane
    requires 0 <= r.bank < |lane.lists|
  {
    Lane(lane.queue + [r.(hitSeq := HitSeq(lane.lists[r.bank], r.row, limit, b))],
         lane.lists[r.bank := Insert(lane.lists[r.bank], r, limit, b)])
  }

  /** Puts a request in a lane; first tells whether it is now the first of its bank. */
  method AddRequest(g: Tech, lane: Lane, r: Request, limit: int, b: RowState) returns (lane': Lane, first: bool)
    requires lane.Ok(g, limit) && 0 <= r.bank < |g.rankOf| && limit >= 0 && b.hits >= 0
    ensures lane' == AddedTo(lane, r, limit, b) && lane'.Ok(g, limit)
    ensures first <==> lane.lists[r.bank] == []
    ensures !first ==> lane.queue != []
  {
    AddSplit(lane.queue, lane.lists, limit, r, b);
    var list := lane.lists[r.bank];
    var list' := Add(list, r, limit, b);
    var seq_ := HitSeq(list, r.row, limit, b);
    lane' := Lane(lane.queue + [r.(hitSeq := seq_)], lane.lists[r.bank := list']);
    first := list == [];
    if lane.queue == [] {
      assert OfBank(lane.queue, r.bank) == [];
      assert |multiset(list)| == 0;
    }
  }
}
