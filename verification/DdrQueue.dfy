/** One bank's request queue in a DRAM controller, kept in first-ready, first-come-first-served order as
    requests arrive: a request joins the last one of its row, as long as that row's run of hits is below the
    limit; otherwise it goes last.
 */
module DdrQueue {

  /** A request; hitSeq is its place in a run of row hits, 0 for the first. Banks are numbered across ranks. */
  datatype Request = Request(id: int, bank: int, row: int, write: bool, hitSeq: int, arrival: int)

  type Queue = seq<Request>

  // ---------------------------------------------------------------- arrival order

  /** The last request of the row, or -1. */
  function LastOfRow(q: Queue, row: int): (m: int)
    ensures -1 <= m < |q|
  {
    if q == [] then -1 else if q[|q| - 1].row == row then |q| - 1 else LastOfRow(q[..|q| - 1], row)
  }

  lemma {:induction false} LastOfRowIs(q: Queue, row: int)
    ensures var m := LastOfRow(q, row); (m >= 0 ==> q[m].row == row) && forall j | m < j < |q| :: q[j].row != row
  {
    if q != [] && q[|q| - 1].row != row {
      LastOfRowIs(q[..|q| - 1], row);
    }
  }

  /** What the queue needs to know of the bank: its open row, if any, and the hits it has had. */
  datatype RowState = RowState(open: bool, row: int, hits: int)

  /** Where a request of the row goes. */
  function Place(q: Queue, row: int, limit: int): (p: int)
    ensures 0 <= p <= |q|
  {
    var m := LastOfRow(q, row);
    if m >= 0 && q[m].hitSeq < limit then m + 1 else |q|
  }

  /** Its sequence number. */
  function HitSeq(q: Queue, row: int, limit: int, b: RowState): int {
    var m := LastOfRow(q, row);
    if m >= 0 then (if q[m].hitSeq < limit then q[m].hitSeq + 1 else 0)
    else if b.open && row == b.row && b.hits < limit && q == [] then b.hits + 1
    else 0
  }

  function Insert(q: Queue, r: Request, limit: int, b: RowState): (q': Queue)
    ensures |q'| == |q| + 1
  {
    var p := Place(q, r.row, limit);
    q[..p] + [r.(hitSeq := HitSeq(q, r.row, limit, b))] + q[p..]
  }

  /** Each request is the first of a run of hits, or continues the run of the one before it. */
  ghost predicate Linked(q: Queue, i: int)
    requires 0 <= i < |q|
  {
    i > 0 && q[i].hitSeq != 0 ==> q[i].row == q[i - 1].row && q[i].hitSeq == q[i - 1].hitSeq + 1
  }

  ghost predicate Ordered(q: Queue, limit: int) {
    && (forall i {:trigger Linked(q, i)} | 0 <= i < |q| :: Linked(q, i))
    && (forall i | 0 <= i < |q| :: 0 <= q[i].hitSeq <= limit)
  }

  lemma InsertOrdered(q: Queue, r: Request, limit: int, b: RowState)
    requires Ordered(q, limit) && limit >= 0 && b.hits >= 0
    ensures Ordered(Insert(q, r, limit, b), limit)
  {
    LastOfRowIs(q, r.row);
    var q', p := Insert(q, r, limit, b), Place(q, r.row, limit);
    forall i | 0 <= i < |q'| ensures Linked(q', i) {
      if i < p {
        assert Linked(q, i);
      } else if i > p {
        assert Linked(q, i - 1);
      }
    }
  }

  lemma ServeOrdered(q: Queue, limit: int)
    requires Ordered(q, limit) && q != []
    ensures Ordered(q[1..], limit)
  {
    forall i | 0 <= i < |q| - 1 ensures Linked(q[1..], i) {
      assert Linked(q, i + 1);
    }
  }

  /** Only a row hit bypasses anyone: a request put ahead of others continues the run of the request it is put
      after; and no request of its row is behind it. */
  lemma BypassIsRowHit(q: Queue, r: Request, limit: int, b: RowState)
    ensures var p, q' := Place(q, r.row, limit), Insert(q, r, limit, b);
            && (p < |q| ==> p > 0 && q[p - 1].row == r.row && q'[p].hitSeq == q[p - 1].hitSeq + 1 <= limit)
            && (forall j | p < j < |q'| :: q'[j].row != r.row)
  {
    LastOfRowIs(q, r.row);
  }

  /** A request joins the run of the last one of its row, at m, exactly if that run is below the limit; otherwise it
      goes last and starts a run of its own. */
  lemma JoinsLastOfRow(q: Queue, r: Request, limit: int, b: RowState, m: int)
    requires 0 <= m < |q| && q[m].row == r.row && forall j | m < j < |q| :: q[j].row != r.row
    ensures var q' := Insert(q, r, limit, b);
      if q[m].hitSeq < limit then q' == q[..m + 1] + [r.(hitSeq := q[m].hitSeq + 1)] + q[m + 1..]
      else q' == q + [r.(hitSeq := 0)]
  {
    LastOfRowIs(q, r.row);
  }

  /** A request that finds none of its row goes last; it continues the hits of the open row exactly if nobody waits. */
  lemma NoneOfRow(q: Queue, r: Request, limit: int, b: RowState)
    requires forall j | 0 <= j < |q| :: q[j].row != r.row
    ensures Insert(q, r, limit, b) ==
      q + [r.(hitSeq := if q == [] && b.open && b.row == r.row && b.hits < limit then b.hits + 1 else 0)]
  {
    LastOfRowIs(q, r.row);
  }

  // ---------------------------------------------------------------- bounded bypass

  /** A run of hits ends at i. */
  predicate EndsRun(q: Queue, i: int)
    requires 0 <= i < |q|
  {
    i + 1 == |q| || q[i + 1].hitSeq == 0
  }

  /** The hits that the runs ending ahead of position i can still take. */
  function Slack(q: Queue, i: int, limit: int): int
    requires 0 <= i <= |q|
  {
    if i == 0 then 0 else Slack(q, i - 1, limit) + if EndsRun(q, i - 1) then limit - q[i - 1].hitSeq else 0
  }

  lemma {:induction false} SlackBounds(q: Queue, i: int, limit: int)
    requires 0 <= i <= |q| && Ordered(q, limit)
    ensures 0 <= Slack(q, i, limit) <= limit * i
  {
    if i > 0 {
      SlackBounds(q, i - 1, limit);
      assert limit * i == limit * (i - 1) + limit;
    }
  }

  lemma {:induction false} SlackSame(q: Queue, q': Queue, i: int, limit: int)
    requires 0 <= i < |q| && i < |q'| && forall j | 0 <= j <= i :: q'[j] == q[j]
    ensures Slack(q', i, limit) == Slack(q, i, limit)
  {
    if i > 0 {
      SlackSame(q, q', i - 1, limit);
    }
  }

  /** A request put in at p takes one hit from the slack of everything behind it. */
  lemma {:induction false} SlackTaken(q: Queue, r: Request, limit: int, b: RowState, i: int)
    requires Ordered(q, limit) && Place(q, r.row, limit) <= i < |q|
    ensures Slack(Insert(q, r, limit, b), i + 1, limit) == Slack(q, i, limit) - 1
  {
    LastOfRowIs(q, r.row);
    var q', p := Insert(q, r, limit, b), Place(q, r.row, limit);
    assert Linked(q, p);
    if i == p {
      SlackSame(q, q', p - 1, limit);
    } else {
      SlackTaken(q, r, limit, b, i - 1);
      assert q'[i] == q[i - 1] && q'[i + 1] == q[i];
    }
  }

  lemma {:induction false} SlackServed(q: Queue, i: int, limit: int)
    requires Ordered(q, limit) && 1 <= i <= |q|
    ensures Slack(q[1..], i - 1, limit) <= Slack(q, i, limit)
  {
    if i > 1 {
      SlackServed(q, i - 1, limit);
    }
  }

  /** What happens to the queue: a request arrives, or the first one is served. */
  datatype Event = Arrive(r: Request, b: RowState) | Serve

  function After(q: Queue, e: Event, limit: int): Queue {
    match e
    case Arrive(r, b) => Insert(q, r, limit, b)
    case Serve => if q == [] then q else q[1..]
  }

  /** The request at position i, followed through a run of events until it is served: how many arrivals are
      put ahead of it. */
  function Overtakes(q: Queue, i: int, events: seq<Event>, limit: int): nat
    requires 0 <= i < |q|
    decreases |events|
  {
    if events == [] then 0
    else
      var q', rest := After(q, events[0], limit), events[1..];
      match events[0]
      case Serve => if i == 0 then 0 else Overtakes(q', i - 1, rest, limit)
      case Arrive(r, _) =>
        if Place(q, r.row, limit) <= i then 1 + Overtakes(q', i + 1, rest, limit) else Overtakes(q', i, rest, limit)
  }

  /** However many requests arrive, those that overtake a queued request number at most the hits that the row
      runs ahead of it can still take, and so at most the limit for each request ahead of it. */
  lemma {:induction false} BypassIsBounded(q: Queue, i: int, events: seq<Event>, limit: int)
    requires 0 <= i < |q| && Ordered(q, limit) && limit >= 0
    requires forall k | 0 <= k < |events| && events[k].Arrive? :: events[k].b.hits >= 0
    ensures Overtakes(q, i, events, limit) <= Slack(q, i, limit) <= limit * i
    decreases |events|
  {
    SlackBounds(q, i, limit);
    if events != [] {
      var e, rest := events[0], events[1..];
      var q' := After(q, e, limit);
      if e.Serve? {
        if i > 0 {
          ServeOrdered(q, limit);
          BypassIsBounded(q', i - 1, rest, limit);
          SlackServed(q, i, limit);
          assert Overtakes(q, i, events, limit) == Overtakes(q', i - 1, rest, limit);
        }
      } else {
        InsertOrdered(q, e.r, limit, e.b);
        if Place(q, e.r.row, limit) <= i {
          BypassIsBounded(q', i + 1, rest, limit);
          SlackTaken(q, e.r, limit, e.b, i);
          assert Overtakes(q, i, events, limit) == 1 + Overtakes(q', i + 1, rest, limit);
        } else {
          BypassIsBounded(q', i, rest, limit);
          SlackSame(q, q', i, limit);
          assert Overtakes(q, i, events, limit) == Overtakes(q', i, rest, limit);
        }
      }
    }
  }

  // ---------------------------------------------------------------- the search from the back

  /** Puts a request in its place: looks from the back for the last one of its row. */
  method Add(q: Queue, req: Request, rowHitLimit: int, b: RowState) returns (q': Queue)
    ensures q' == Insert(q, req, rowHitLimit, b)
  {
    var m := |q| - 1;
    while m >= 0
      invariant -1 <= m < |q|
      invariant forall j | m < j < |q| :: q[j].row != req.row
    {
      if q[m].row == req.row {
        JoinsLastOfRow(q, req, rowHitLimit, b, m);
        if q[m].hitSeq < rowHitLimit {
          return q[..m + 1] + [req.(hitSeq := q[m].hitSeq + 1)] + q[m + 1..];
        } else {
          return q + [req.(hitSeq := 0)];
        }
      }
      m := m - 1;
    }
    NoneOfRow(q, req, rowHitLimit, b);
    if b.open && req.row == b.row && b.hits < rowHitLimit && q == [] {
      q' := [req.(hitSeq := b.hits + 1)] + q;
    } else {
      q' := q + [req.(hitSeq := 0)];
    }
  }
}
