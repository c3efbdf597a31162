/** The weave phase of one domain: a graph of timing events with parent counters, driven by the calendar
    queue. Running it computes every event's longest-path time, whatever the order among equal cycles.
 */
module Weave {
  import opened Arith
  import ChildBlocks
  import opened PrioQueue

  /** The events of a domain. children[p] lists p's children as often as they were added; service is what an
      event's simulation takes when it starts at a given cycle; rank witnesses that the graph has no cycle;
      roots are queued directly, at cycle queuedAt[e].
   */
  datatype Graph = Graph(children: seq<seq<int>>, pre: seq<nat>, post: seq<nat>, isDelay: seq<bool>,
                         service: (int, int) -> nat, rank: seq<nat>, queuedAt: seq<nat>)
  {
    ghost predicate Ok() {
      && |children| == |pre| == |post| == |isDelay| == |rank| == |queuedAt|
      && (forall p, i | 0 <= p < |children| && 0 <= i < |children[p]| ::
            0 <= children[p][i] < |children| && rank[p] < rank[children[p][i]])
      && (forall e | 0 <= e < |children| :: rank[e] <= |children|)
      && (forall e | 0 <= e < |children| && IsRoot(e) :: !isDelay[e])
    }

    ghost predicate IsRoot(e: int) {
      forall p | 0 <= p < |children| :: e !in children[p]
    }
  }

  function CountIn(s: seq<int>, c: int): nat {
    if s == [] then 0 else (if s[0] == c then 1 else 0) + CountIn(s[1..], c)
  }

  lemma {:induction false} CountNone(s: seq<int>, c: int)
    ensures CountIn(s, c) == 0 <==> c !in s
  {
    if s != [] {
      CountNone(s[1..], c);
      assert s == [s[0]] + s[1..];
    }
  }

  lemma CountFrom(s: seq<int>, i: int, c: int)
    requires 0 <= i < |s|
    ensures CountIn(s[i..], c) == CountIn(s[i + 1..], c) + if s[i] == c then 1 else 0
  {
    assert s[i..][1..] == s[i + 1..];
  }

  // ---------------------------------------------------------------- what each event's times should be

  /** When e is done: its run time plus its service, or for a delay event its ready time plus the delay. */
  ghost function DoneSpec(g: Graph, e: int): (d: int)
    requires g.Ok() && 0 <= e < |g.children|
    ensures d >= 0
    decreases g.rank[e], 1, 0
  {
    if g.isDelay[e] then RunSpec(g, e) else RunSpec(g, e) + g.service(e, RunSpec(g, e))
  }

  /** When e runs: at its own cycle if it is a root, else preDelay after the last parent. */
  ghost function RunSpec(g: Graph, e: int): (d: int)
    requires g.Ok() && 0 <= e < |g.children|
    ensures d >= 0
    decreases g.rank[e], 0, |g.children| + 1
  {
    if g.IsRoot(e) then g.queuedAt[e] else ReadySpec(g, e, |g.children|) + g.pre[e]
  }

  /** The latest (done + postDelay) over the parents of e numbered below p. */
  ghost function ReadySpec(g: Graph, e: int, p: int): (d: int)
    requires g.Ok() && 0 <= e < |g.children| && 0 <= p <= |g.children|
    ensures d >= 0
    decreases g.rank[e], 0, p
  {
    if p == 0 then 0
    else if e in g.children[p - 1] then Max(ReadySpec(g, e, p - 1), DoneSpec(g, p - 1) + g.post[p - 1])
    else ReadySpec(g, e, p - 1)
  }

  // ---------------------------------------------------------------- progress through the edges

  /** Edges to c not yet visited, from events below p; proc[q] is how many children of q have been visited. */
  ghost function Pending(g: Graph, proc: seq<int>, c: int, p: int): (n: nat)
    requires |proc| == |g.children| && 0 <= p <= |g.children|
    requires forall q | 0 <= q < |proc| :: 0 <= proc[q] <= |g.children[q]|
  {
    if p == 0 then 0 else Pending(g, proc, c, p - 1) + CountIn(g.children[p - 1][proc[p - 1]..], c)
  }

  /** The latest (done + postDelay) over the visited edges to c, from events below p. */
  ghost function Best(g: Graph, proc: seq<int>, doneAt: seq<int>, c: int, p: int): int
    requires |proc| == |g.children| == |doneAt| == |g.post| && 0 <= p <= |g.children|
    requires forall q | 0 <= q < |proc| :: 0 <= proc[q] <= |g.children[q]|
  {
    if p == 0 then 0
    else if c in g.children[p - 1][..proc[p - 1]] then
      Max(Best(g, proc, doneAt, c, p - 1), doneAt[p - 1] + g.post[p - 1])
    else Best(g, proc, doneAt, c, p - 1)
  }

  lemma {:induction false} PendingStep(g: Graph, proc: seq<int>, c: int, p: int, q: int)
    requires |proc| == |g.children| && 0 <= p <= |g.children|
    requires forall q | 0 <= q < |proc| :: 0 <= proc[q] <= |g.children[q]|
    requires 0 <= q < |proc| && proc[q] < |g.children[q]|
    ensures Pending(g, proc[q := proc[q] + 1], c, p)
      == Pending(g, proc, c, p) - if q < p && g.children[q][proc[q]] == c then 1 else 0
  {
    if p > 0 {
      PendingStep(g, proc, c, p - 1, q);
      if q == p - 1 {
        CountFrom(g.children[q], proc[q], c);
      }
    }
  }

  lemma {:induction false} BestStep(g: Graph, proc: seq<int>, doneAt: seq<int>, c: int, p: int, q: int)
    requires |proc| == |g.children| == |doneAt| == |g.post| && 0 <= p <= |g.children|
    requires forall q | 0 <= q < |proc| :: 0 <= proc[q] <= |g.children[q]|
    requires 0 <= q < |proc| && proc[q] < |g.children[q]|
    ensures Best(g, proc[q := proc[q] + 1], doneAt, c, p)
      == if q < p && g.children[q][proc[q]] == c then Max(Best(g, proc, doneAt, c, p), doneAt[q] + g.post[q])
         else Best(g, proc, doneAt, c, p)
  {
    if p > 0 {
      BestStep(g, proc, doneAt, c, p - 1, q);
      if q == p - 1 {
        assert g.children[q][..proc[q] + 1] == g.children[q][..proc[q]] + [g.children[q][proc[q]]];
      }
    }
  }

  /** Done times of events with no visited edge do not matter. */
  lemma {:induction false} BestFrame(g: Graph, proc: seq<int>, doneAt: seq<int>, doneAt': seq<int>, c: int, p: int)
    requires |proc| == |g.children| == |doneAt| == |doneAt'| == |g.post| && 0 <= p <= |g.children|
    requires forall q | 0 <= q < |proc| :: 0 <= proc[q] <= |g.children[q]|
    requires forall q | 0 <= q < |proc| && proc[q] > 0 :: doneAt'[q] == doneAt[q]
    ensures Best(g, proc, doneAt', c, p) == Best(g, proc, doneAt, c, p)
  {
    if p > 0 {
      BestFrame(g, proc, doneAt, doneAt', c, p - 1);
    }
  }

  /** Once no edge to c is pending, what has been collected is c's ready time. */
  lemma {:induction false} BestIsReady(g: Graph, proc: seq<int>, doneAt: seq<int>, c: int, p: int)
    requires g.Ok() && |proc| == |g.children| == |doneAt| && 0 <= p <= |g.children| && 0 <= c < |g.children|
    requires forall q | 0 <= q < |proc| :: 0 <= proc[q] <= |g.children[q]|
    requires forall q | 0 <= q < |proc| && proc[q] > 0 :: doneAt[q] == DoneSpec(g, q)
    requires Pending(g, proc, c, p) == 0
    ensures Best(g, proc, doneAt, c, p) == ReadySpec(g, c, p)
  {
    if p > 0 {
      BestIsReady(g, proc, doneAt, c, p - 1);
      var s, i := g.children[p - 1], proc[p - 1];
      CountNone(s[i..], c);
      assert c in s <==> c in s[..i] by {
        assert s == s[..i] + s[i..];
      }
    }
  }

  /** A pending edge comes from an event that is not done visiting. */
  lemma {:induction false} PendingParent(g: Graph, proc: seq<int>, c: int, p: int) returns (q: int)
    requires |proc| == |g.children| && 0 <= p <= |g.children|
    requires forall q | 0 <= q < |proc| :: 0 <= proc[q] <= |g.children[q]|
    requires Pending(g, proc, c, p) > 0
    ensures 0 <= q < p && c in g.children[q] && proc[q] < |g.children[q]|
  {
    CountNone(g.children[p - 1][proc[p - 1]..], c);
    if c in g.children[p - 1][proc[p - 1]..] {
      q := p - 1;
    } else {
      q := PendingParent(g, proc, c, p - 1);
    }
  }

  lemma {:induction false} NonePending(g: Graph, proc: seq<int>, c: int, p: int, q: int)
    requires |proc| == |g.children| && 0 <= q < p <= |g.children|
    requires forall q | 0 <= q < |proc| :: 0 <= proc[q] <= |g.children[q]|
    requires Pending(g, proc, c, p) == 0
    ensures c !in g.children[q][proc[q]..]
  {
    if q < p - 1 {
      NonePending(g, proc, c, p - 1, q);
    } else {
      CountNone(g.children[q][proc[q]..], c);
    }
  }

  /** The number of edges into c from events below p. */
  function InDegree(children: seq<seq<int>>, c: int, p: int): (n: nat)
    requires 0 <= p <= |children|
  {
    if p == 0 then 0 else InDegree(children, c, p - 1) + CountIn(children[p - 1], c)
  }

  lemma {:induction false} CountConcat(s: seq<int>, r: seq<int>, c: int)
    ensures CountIn(s + r, c) == CountIn(s, c) + CountIn(r, c)
  {
    if s == [] {
      assert s + r == r;
    } else {
      CountConcat(s[1..], r, c);
      assert (s + r)[1..] == s[1..] + r;
    }
  }

  /** One more child counts once, wherever it is put. */
  lemma CountAfter(s: seq<int>, ev: int, c: int)
    ensures CountIn(ChildBlocks.After(s, ev), c) == CountIn(s, c) + if c == ev then 1 else 0
  {
    var k :| 0 <= k <= |s| && ChildBlocks.After(s, ev) == s[..k] + [ev] + s[k..];
    CountConcat(s[..k] + [ev], s[k..], c);
    CountConcat(s[..k], [ev], c);
    CountConcat(s[..k], s[k..], c);
    assert s == s[..k] + s[k..];
    assert [ev][1..] == [];
  }

  lemma {:induction false} EdgeAdded(children: seq<seq<int>>, p: int, ev: int, c: int, n: int)
    requires 0 <= p < |children| && 0 <= n <= |children|
    ensures InDegree(children[p := ChildBlocks.After(children[p], ev)], c, n)
         == InDegree(children, c, n) + if c == ev && p < n then 1 else 0
  {
    if n > 0 {
      EdgeAdded(children, p, ev, c, n - 1);
      CountAfter(children[p], ev, c);
    }
  }

  lemma {:induction false} NoEdges(children: seq<seq<int>>, c: int, n: int)
    requires 0 <= n <= |children| && forall p | 0 <= p < |children| :: children[p] == []
    ensures InDegree(children, c, n) == 0
  {
    if n > 0 {
      NoEdges(children, c, n - 1);
    }
  }

  /** The bound phase's side of the graph: addChild links events and counts their parents. */
  class EventRecorder {
    var children: seq<seq<int>>
    var numParents: seq<int>

    /** Every event counts the edges that lead to it. */
    ghost predicate Valid()
      reads this
    {
      |numParents| == |children| && forall e | 0 <= e < |children| :: numParents[e] == InDegree(children, e, |children|)
    }

    constructor (n: nat)
      ensures Valid() && |children| == n && forall p | 0 <= p < n :: children[p] == []
    {
      children := seq(n, _ => []);
      numParents := seq(n, _ => 0);
      new;
      forall e | 0 <= e < n ensures InDegree(children, e, n) == 0 {
        NoEdges(children, e, n);
      }
    }

    /** The child joins the list, in the order in which the blocks are visited, and counts one more parent. */
    method AddChild(p: int, childEv: int)
      requires Valid() && 0 <= p < |children| && 0 <= childEv < |children|
      modifies this
      ensures Valid() && children == old(children)[p := ChildBlocks.After(old(children)[p], childEv)]
      ensures numParents == old(numParents)[childEv := old(numParents)[childEv] + 1]
    {
      forall e | 0 <= e < |children|
        ensures InDegree(children[p := ChildBlocks.After(children[p], childEv)], e, |children|)
             == InDegree(children, e, |children|) + if e == childEv then 1 else 0
      {
        EdgeAdded(children, p, childEv, e, |children|);
      }
      children := children[p := ChildBlocks.After(children[p], childEv)];
      numParents := numParents[childEv := numParents[childEv] + 1];
    }
  }

  lemma {:induction false} NoneVisited(g: Graph, proc: seq<int>, doneAt: seq<int>, c: int, p: int)
    requires |proc| == |g.children| == |doneAt| == |g.post| && 0 <= p <= |g.children|
    requires forall q | 0 <= q < |proc| :: proc[q] == 0
    ensures Pending(g, proc, c, p) == InDegree(g.children, c, p) && Best(g, proc, doneAt, c, p) == 0
    ensures InDegree(g.children, c, p) == 0 <==> forall q | 0 <= q < p :: c !in g.children[q]
  {
    if p > 0 {
      NoneVisited(g, proc, doneAt, c, p - 1);
      CountNone(g.children[p - 1], c);
      assert g.children[p - 1][0..] == g.children[p - 1];
    }
  }

  /** A parent's done time is at most its child's run time. */
  lemma {:induction false} ParentBefore(g: Graph, e: int, p: int, q: int)
    requires g.Ok() && 0 <= e < |g.children| && 0 <= q < p <= |g.children| && e in g.children[q]
    ensures DoneSpec(g, q) + g.post[q] <= ReadySpec(g, e, p)
  {
    if q < p - 1 {
      ParentBefore(g, e, p - 1, q);
    }
  }

  /** What is ready for e is set by some parent. */
  lemma {:induction false} ReadyFrom(g: Graph, e: int, p: int) returns (q: int)
    requires g.Ok() && 0 <= e < |g.children| && 0 <= p <= |g.children|
    requires exists q :: 0 <= q < p && e in g.children[q]
    ensures 0 <= q < p && e in g.children[q] && ReadySpec(g, e, p) == DoneSpec(g, q) + g.post[q]
  {
    if e in g.children[p - 1] && DoneSpec(g, p - 1) + g.post[p - 1] >= ReadySpec(g, e, p - 1) {
      q := p - 1;
    } else {
      if forall q | 0 <= q < p - 1 :: e !in g.children[q] {
        NeverReady(g, e, p - 1);
        assert e in g.children[p - 1];
      }
      q := ReadyFrom(g, e, p - 1);
    }
  }

  lemma {:induction false} NeverReady(g: Graph, e: int, p: int)
    requires g.Ok() && 0 <= e < |g.children| && 0 <= p <= |g.children|
    requires forall q | 0 <= q < p :: e !in g.children[q]
    ensures ReadySpec(g, e, p) == 0
  {
    if p > 0 {
      NeverReady(g, e, p - 1);
    }
  }

  // ---------------------------------------------------------------- what the times mean

  /** e starts at `at` when the latest of its parents, with that parent's postDelay and its own preDelay, is done. */
  ghost predicate AfterParents(g: Graph, doneAt: seq<int>, e: int, at: int)
    requires g.Ok() && |doneAt| == |g.children| && 0 <= e < |g.children|
  {
    && (forall p | 0 <= p < |g.children| && e in g.children[p] :: at >= doneAt[p] + g.post[p] + g.pre[e])
    && exists p :: 0 <= p < |g.children| && e in g.children[p] && at == doneAt[p] + g.post[p] + g.pre[e]
  }

  /** Each event in the trace is done after its service, and starts at its own cycle if it is a root, and else when
      the latest parent allows; a delay event is done when its latest parent allows. */
  ghost predicate Timed(g: Graph, runs: seq<(int, int)>, doneAt: seq<int>) {
    && g.Ok() && |doneAt| == |g.children|
    && (forall i | 0 <= i < |runs| ::
          && 0 <= runs[i].1 < |doneAt|
          && doneAt[runs[i].1] == runs[i].0 + g.service(runs[i].1, runs[i].0)
          && if g.IsRoot(runs[i].1) then runs[i].0 == g.queuedAt[runs[i].1]
             else AfterParents(g, doneAt, runs[i].1, runs[i].0))
    && (forall e | 0 <= e < |doneAt| && g.isDelay[e] :: AfterParents(g, doneAt, e, doneAt[e]))
  }

  lemma SpecTimed(g: Graph, runs: seq<(int, int)>, doneAt: seq<int>)
    requires g.Ok() && |doneAt| == |g.children| && forall e | 0 <= e < |doneAt| :: doneAt[e] == DoneSpec(g, e)
    requires forall i | 0 <= i < |runs| ::
      0 <= runs[i].1 < |doneAt| && runs[i].0 == RunSpec(g, runs[i].1) && !g.isDelay[runs[i].1]
    ensures Timed(g, runs, doneAt)
  {
    forall e | 0 <= e < |doneAt| && !g.IsRoot(e) ensures AfterParents(g, doneAt, e, RunSpec(g, e)) {
      SpecAfterParents(g, doneAt, e);
    }
  }

  lemma SpecAfterParents(g: Graph, doneAt: seq<int>, e: int)
    requires g.Ok() && |doneAt| == |g.children| && forall e | 0 <= e < |doneAt| :: doneAt[e] == DoneSpec(g, e)
    requires 0 <= e < |doneAt| && !g.IsRoot(e)
    ensures AfterParents(g, doneAt, e, RunSpec(g, e))
  {
    forall p | 0 <= p < |g.children| && e in g.children[p]
      ensures RunSpec(g, e) >= doneAt[p] + g.post[p] + g.pre[e]
    {
      ParentBefore(g, e, |g.children|, p);
    }
    var q := ReadyFrom(g, e, |g.children|);
    assert RunSpec(g, e) == doneAt[q] + g.post[q] + g.pre[e];
  }

  // ---------------------------------------------------------------- the engine

  datatype EventState = EV_NONE | EV_QUEUED | EV_RUNNING | EV_DONE

  /** What another event's completion may do to an event: nothing, or start it on its way once all parents are done. */
  predicate Later(s: EventState, s': EventState) {
    s' == s || (s == EV_NONE && (s' == EV_QUEUED || s' == EV_DONE))
  }

  ghost predicate Advances(before: seq<EventState>, after: seq<EventState>) {
    |after| == |before| && forall d | 0 <= d < |after| :: Later(before[d], after[d])
  }

  /** Over whole events, what is done stays done, and what has been queued or done is never new again. */
  ghost predicate Forward(before: seq<EventState>, after: seq<EventState>) {
    && |after| == |before|
    && forall d | 0 <= d < |after| ::
      (before[d] == EV_DONE ==> after[d] == EV_DONE) && (before[d] != EV_NONE ==> after[d] != EV_NONE)
  }

  /** The bookkeeping of all events: state, cycle collected from the parents, parents still to come, children
      visited, cycle at which each was done; and the domain's current cycle.
   */
  datatype Book = Book(state: seq<EventState>, cycle: seq<int>, numParents: seq<int>, proc: seq<int>,
                       doneAt: seq<int>, now: int) {
    ghost predicate Sized(g: Graph) {
      && g.Ok()
      && |state| == |cycle| == |numParents| == |proc| == |doneAt| == |g.children|
      && forall q | 0 <= q < |proc| :: 0 <= proc[q] <= |g.children[q]|
    }

    /** The counters of e fit the edges visited so far. */
    ghost predicate Counted(g: Graph, e: int)
      requires Sized(g) && 0 <= e < |state|
    {
      && numParents[e] == Pending(g, proc, e, |state|)
      && cycle[e] == Best(g, proc, doneAt, e, |state|)
      && (state[e] != EV_DONE ==> proc[e] == 0)
    }

    /** One event is in order. Events in active are in the middle of visiting their children. */
    ghost predicate EvOk(g: Graph, e: int, active: set<int>)
      requires Sized(g) && 0 <= e < |state|
    {
      && Counted(g, e)
      && match state[e]
         case EV_NONE => numParents[e] > 0 || g.IsRoot(e)
         case EV_QUEUED => numParents[e] == 0 && !g.isDelay[e] && RunSpec(g, e) >= now
         case EV_RUNNING => numParents[e] == 0
         case EV_DONE =>
           && numParents[e] == 0 && doneAt[e] == DoneSpec(g, e)
           && (e !in active ==> proc[e] == |g.children[e]|)
    }

    ghost predicate AllOk(g: Graph, active: set<int>) {
      Sized(g) && forall e {:trigger EvOk(g, e, active)} | 0 <= e < |state| :: EvOk(g, e, active)
    }

    /** The next child of p has collected p's done time. */
    function Visit(g: Graph, p: int): Book
      requires 0 <= p < |proc| == |g.children| == |doneAt| == |g.post| && 0 <= proc[p] < |g.children[p]|
      requires 0 <= g.children[p][proc[p]] < |numParents| == |cycle|
    {
      var c := g.children[p][proc[p]];
      this.(cycle := cycle[c := Max(cycle[c], doneAt[p] + g.post[p])],
            numParents := numParents[c := numParents[c] - 1],
            proc := proc[p := proc[p] + 1])
    }
  }

  lemma PendingEdge(g: Graph, b: Book, p: int, active: set<int>)
    requires b.AllOk(g, active) && 0 <= p < |b.state| && b.proc[p] < |g.children[p]|
    ensures var c := g.children[p][b.proc[p]];
      0 <= c < |b.state| && b.numParents[c] > 0 && b.state[c] == EV_NONE && c != p
  {
    var c := g.children[p][b.proc[p]];
    assert b.EvOk(g, c, active);
    assert g.children[p][b.proc[p]..][0] == c;
    if Pending(g, b.proc, c, |b.state|) == 0 {
      NonePending(g, b.proc, c, |b.state|, p);
    }
  }

  /** After an edge is visited, all counters fit again. */
  lemma VisitCounts(g: Graph, b: Book, p: int, active: set<int>)
    requires b.AllOk(g, active) && 0 <= p < |b.state| && b.proc[p] < |g.children[p]|
    requires p in active && b.state[p] == EV_DONE
    ensures var c, b' := g.children[p][b.proc[p]], b.Visit(g, p);
      && b'.Sized(g) && 0 <= c < |b.state| && b'.Counted(g, c)
      && forall e {:trigger b'.EvOk(g, e, active)} | 0 <= e < |b.state| && e != c :: b'.EvOk(g, e, active)
  {
    var c, b', n := g.children[p][b.proc[p]], b.Visit(g, p), |b.state|;
    PendingEdge(g, b, p, active);
    assert b.EvOk(g, c, active);
    VisitSized(g, b, p);
    VisitCounted(g, b, p, c);
    forall e | 0 <= e < n && e != c ensures b'.EvOk(g, e, active) {
      assert b.EvOk(g, e, active);
      VisitCounted(g, b, p, e);
    }
  }

  lemma VisitSized(g: Graph, b: Book, p: int)
    requires b.Sized(g) && 0 <= p < |b.state| && b.proc[p] < |g.children[p]|
    ensures b.Visit(g, p).Sized(g)
  {
  }

  lemma VisitCounted(g: Graph, b: Book, p: int, e: int)
    requires b.Sized(g) && 0 <= p < |b.state| && b.proc[p] < |g.children[p]| && 0 <= e < |b.state|
    requires b.Counted(g, e) && b.state[p] == EV_DONE
    requires e == g.children[p][b.proc[p]] ==> b.state[e] == EV_NONE
    requires b.Visit(g, p).Sized(g)
    ensures b.Visit(g, p).Counted(g, e)
  {
    VisitPending(g, b, p, e);
    VisitBest(g, b, p, e);
  }

  lemma VisitPending(g: Graph, b: Book, p: int, e: int)
    requires b.Sized(g) && 0 <= p < |b.state| && b.proc[p] < |g.children[p]| && 0 <= e < |b.state|
    requires b.numParents[e] == Pending(g, b.proc, e, |b.state|) && b.Visit(g, p).Sized(g)
    ensures b.Visit(g, p).numParents[e] == Pending(g, b.Visit(g, p).proc, e, |b.state|)
  {
    PendingStep(g, b.proc, e, |b.state|, p);
  }

  lemma VisitBest(g: Graph, b: Book, p: int, e: int)
    requires b.Sized(g) && 0 <= p < |b.state| && b.proc[p] < |g.children[p]| && 0 <= e < |b.state|
    requires b.cycle[e] == Best(g, b.proc, b.doneAt, e, |b.state|) && b.Visit(g, p).Sized(g)
    ensures b.Visit(g, p).cycle[e] == Best(g, b.Visit(g, p).proc, b.doneAt, e, |b.state|)
  {
    BestStep(g, b.proc, b.doneAt, e, |b.state|, p);
  }

  /** When the last parent of c is done, what c has collected is its ready time, which is not in the past. */
  lemma LastParentDone(g: Graph, b: Book, p: int, c: int, active: set<int>)
    requires b.Sized(g) && 0 <= p < |b.state| && 0 <= c < |b.state|
    requires b.Counted(g, c) && b.numParents[c] == 0 && c in g.children[p] && b.state[c] == EV_NONE
    requires forall e {:trigger b.EvOk(g, e, active)} | 0 <= e < |b.state| && e != c :: b.EvOk(g, e, active)
    requires b.state[p] == EV_DONE && b.doneAt[p] + g.post[p] >= b.now
    ensures b.cycle[c] + g.pre[c] == RunSpec(g, c) && RunSpec(g, c) >= b.now
    ensures b.(state := b.state[c := if g.isDelay[c] then EV_RUNNING else EV_QUEUED]).AllOk(g, active)
  {
    forall q | 0 <= q < |b.proc| && b.proc[q] > 0 ensures b.doneAt[q] == DoneSpec(g, q) {
      if q != c {
        assert b.EvOk(g, q, active);
      }
    }
    BestIsReady(g, b.proc, b.doneAt, c, |b.state|);
    assert b.EvOk(g, p, active);
    ParentBefore(g, c, |b.state|, p);
    var b' := b.(state := b.state[c := if g.isDelay[c] then EV_RUNNING else EV_QUEUED]);
    forall e | 0 <= e < |b.state| ensures b'.EvOk(g, e, active) {
      if e != c {
        assert b.EvOk(g, e, active);
      }
    }
  }

  lemma DoneMarked(g: Graph, b: Book, e: int, active: set<int>)
    requires b.AllOk(g, active) && 0 <= e < |b.state| && b.state[e] == EV_RUNNING
    ensures b.(state := b.state[e := EV_DONE], doneAt := b.doneAt[e := DoneSpec(g, e)]).AllOk(g, active + {e})
  {
    var b' := b.(state := b.state[e := EV_DONE], doneAt := b.doneAt[e := DoneSpec(g, e)]);
    assert b.EvOk(g, e, active);
    forall d | 0 <= d < |b.state| ensures b'.EvOk(g, d, active + {e}) {
      assert b.EvOk(g, d, active);
      BestFrame(g, b.proc, b.doneAt, b'.doneAt, d, |b.state|);
    }
  }

  /** Once e has visited all its children it is no longer active. */
  lemma VisitsDone(g: Graph, b: Book, e: int, active: set<int>)
    requires b.AllOk(g, active + {e}) && 0 <= e < |b.state| && b.proc[e] == |g.children[e]|
    ensures b.AllOk(g, active)
  {
    forall d | 0 <= d < |b.state| ensures b.EvOk(g, d, active) {
      assert b.EvOk(g, d, active + {e});
    }
  }

  /** A root is queued, or a queued event starts to run. */
  lemma StateMoves(g: Graph, b: Book, e: int, s: EventState, active: set<int>)
    requires b.AllOk(g, active) && 0 <= e < |b.state|
    requires (b.state[e] == EV_NONE && g.IsRoot(e) && s == EV_QUEUED && g.queuedAt[e] >= b.now)
      || (b.state[e] == EV_QUEUED && s == EV_RUNNING)
    ensures b.numParents[e] == 0 && b.(state := b.state[e := s]).AllOk(g, active)
  {
    var b' := b.(state := b.state[e := s]);
    assert b.EvOk(g, e, active);
    if b.numParents[e] > 0 {
      var q := PendingParent(g, b.proc, e, |b.state|);
    }
    forall d | 0 <= d < |b.state| ensures b'.EvOk(g, d, active) {
      assert b.EvOk(g, d, active);
    }
  }

  /** The queue holds exactly the queued events, each once and at its run time. */
  ghost predicate QueueOk(g: Graph, state: seq<EventState>, content: multiset<(int, int)>)
    requires g.Ok() && |state| == |g.children|
  {
    forall c, e {:trigger QueuedAt(g, state, content, c, e)} :: QueuedAt(g, state, content, c, e)
  }

  ghost predicate QueuedAt(g: Graph, state: seq<EventState>, content: multiset<(int, int)>, c: int, e: int)
    requires g.Ok() && |state| == |g.children|
  {
    content[(c, e)] == if 0 <= e < |state| && state[e] == EV_QUEUED && c == RunSpec(g, e) then 1 else 0
  }

  /** An event that becomes queued joins the queue, one that leaves that state leaves it, and no other step counts. */
  lemma QueueMoves(g: Graph, state: seq<EventState>, e: int, s: EventState, content: multiset<(int, int)>)
    requires g.Ok() && |state| == |g.children| && 0 <= e < |state|
    requires QueueOk(g, state, content)
    ensures var me := multiset{(RunSpec(g, e), e)};
      QueueOk(g, state[e := s],
        if s == EV_QUEUED && state[e] != EV_QUEUED then content + me
        else if s != EV_QUEUED && state[e] == EV_QUEUED then content - me
        else content)
  {
    var me := multiset{(RunSpec(g, e), e)};
    var content' :=
      if s == EV_QUEUED && state[e] != EV_QUEUED then content + me
      else if s != EV_QUEUED && state[e] == EV_QUEUED then content - me
      else content;
    var state' := state[e := s];
    forall c, d ensures QueuedAt(g, state', content', c, d) {
      assert QueuedAt(g, state, content, c, d);
    }
  }

  ghost predicate Started(s: EventState) {
    s == EV_RUNNING || s == EV_DONE
  }

  /** Each event that the queue ran is in the trace once, at its run time, and the trace is in cycle order. */
  ghost predicate TraceOk(g: Graph, state: seq<EventState>, runs: seq<(int, int)>, now: int)
    requires g.Ok() && |state| == |g.children|
  {
    && (forall i | 0 <= i < |runs| ::
          && runs[i].0 <= now && 0 <= runs[i].1 < |state|
          && runs[i].0 == RunSpec(g, runs[i].1) && !g.isDelay[runs[i].1] && Started(state[runs[i].1]))
    && (forall i, j | 0 <= i < j < |runs| :: runs[i].0 <= runs[j].0 && runs[i].1 != runs[j].1)
    && (forall e | 0 <= e < |state| && !g.isDelay[e] && Started(state[e]) :: (RunSpec(g, e), e) in runs)
  }

  lemma TraceGrows(g: Graph, state: seq<EventState>, runs: seq<(int, int)>, te: int, now: int)
    requires g.Ok() && |state| == |g.children| && TraceOk(g, state, runs, now)
    requires 0 <= te < |state| && state[te] == EV_QUEUED && !g.isDelay[te] && now == RunSpec(g, te)
    ensures TraceOk(g, state[te := EV_RUNNING], runs + [(now, te)], now)
  {
    var runs' := runs + [(now, te)];
    assert runs'[|runs|] == (now, te);
    forall e | 0 <= e < |state| && e != te && !g.isDelay[e] && Started(state[e]) ensures (RunSpec(g, e), e) in runs' {
      assert (RunSpec(g, e), e) in runs;
    }
  }

  lemma TraceQueued(g: Graph, state: seq<EventState>, runs: seq<(int, int)>, c: int, now: int)
    requires g.Ok() && |state| == |g.children| && TraceOk(g, state, runs, now)
    requires 0 <= c < |state| && state[c] == EV_NONE
    ensures TraceOk(g, state[c := EV_QUEUED], runs, now)
  {
  }

  ghost predicate IsFirst(content: multiset<(int, int)>, first: int) {
    && (exists e: int :: (first, e) in content)
    && (forall c: int, e: int | (c, e) in content :: first <= c)
  }

  lemma QueueEntry(g: Graph, b: Book, content: multiset<(int, int)>, c: int, e: int)
    requires b.AllOk(g, {}) && QueueOk(g, b.state, content) && (c, e) in content
    ensures 0 <= e < |b.state| && b.state[e] == EV_QUEUED && c == RunSpec(g, e) && c >= b.now
  {
    assert QueuedAt(g, b.state, content, c, e);
    assert b.EvOk(g, e, {});
  }

  /** The clock may move up to the first queued event, and at least to the last one run. */
  lemma ClockMoves(g: Graph, b: Book, runs: seq<(int, int)>, content: multiset<(int, int)>, now: int)
    requires b.AllOk(g, {}) && QueueOk(g, b.state, content) && TraceOk(g, b.state, runs, b.now)
    requires forall c: int, e: int | (c, e) in content :: now <= c
    requires forall i | 0 <= i < |runs| :: runs[i].0 <= now
    ensures b.(now := now).AllOk(g, {}) && TraceOk(g, b.state, runs, now)
  {
    forall e | 0 <= e < |b.state| ensures b.(now := now).EvOk(g, e, {}) {
      assert b.EvOk(g, e, {});
      assert QueuedAt(g, b.state, content, RunSpec(g, e), e);
    }
  }

  /** When the queue is empty, every root has been queued and nothing is running, every event is done, at its
      longest-path time: nothing is left waiting for a parent that never comes.
   */
  lemma {:induction false} AllDone(g: Graph, b: Book, content: multiset<(int, int)>, e: int)
    requires b.AllOk(g, {}) && QueueOk(g, b.state, content) && content == multiset{}
    requires forall d | 0 <= d < |b.state| :: b.state[d] != EV_RUNNING && (g.IsRoot(d) ==> b.state[d] != EV_NONE)
    requires 0 <= e < |b.state|
    ensures b.state[e] == EV_DONE && b.doneAt[e] == DoneSpec(g, e)
    decreases g.rank[e]
  {
    assert b.EvOk(g, e, {});
    assert QueuedAt(g, b.state, content, RunSpec(g, e), e);
    if b.state[e] == EV_NONE {
      var q := PendingParent(g, b.proc, e, |b.state|);
      assert b.EvOk(g, q, {});
      AllDone(g, b, content, q);
    }
  }

  /** The trace of a finished run: each event that is not a mere delay ran exactly once, at its longest-path
      time, which is when the latest parent is done and the delays have passed; each is done after its service; and
      the trace is in cycle order.
   */
  lemma FinishedTrace(g: Graph, b: Book, content: multiset<(int, int)>, runs: seq<(int, int)>)
    requires b.AllOk(g, {}) && QueueOk(g, b.state, content) && content == multiset{}
    requires forall d | 0 <= d < |b.state| :: b.state[d] != EV_RUNNING && (g.IsRoot(d) ==> b.state[d] != EV_NONE)
    requires TraceOk(g, b.state, runs, b.now)
    ensures forall e | 0 <= e < |b.state| && !g.isDelay[e] ::
              exists i :: 0 <= i < |runs| && runs[i] == (RunSpec(g, e), e)
    ensures forall i, j | 0 <= i < j < |runs| :: runs[i].0 <= runs[j].0 && runs[i].1 != runs[j].1
    ensures Timed(g, runs, b.doneAt)
  {
    forall e | 0 <= e < |b.state| ensures b.state[e] == EV_DONE && b.doneAt[e] == DoneSpec(g, e) {
      AllDone(g, b, content, e);
    }
    forall e | 0 <= e < |b.state| && !g.isDelay[e]
      ensures exists i :: 0 <= i < |runs| && runs[i] == (RunSpec(g, e), e)
    {
      assert (RunSpec(g, e), e) in runs;
    }
    SpecTimed(g, runs, b.doneAt);
  }

  class ContentionSim {
    const g: Graph
    var state: seq<EventState>
    var cycle: seq<int>
    var numParents: seq<int>
    const pq: PrioQueue<int>
    var curCycle: int
    /** The limit of the phase before. */
    var lastLimit: int
    ghost var proc: seq<int>
    ghost var doneAt: seq<int>
    /** The (cycle, event) pairs run so far. */
    ghost var runs: seq<(int, int)>

    ghost function Bk(): Book
      reads this
    {
      Book(state, cycle, numParents, proc, doneAt, curCycle)
    }

    ghost predicate Inv(active: set<int>)
      reads this, pq, pq.blocks
    {
      && Bk().AllOk(g, active) && (forall a | a in active :: 0 <= a < |state| && state[a] == EV_DONE)
      && pq.Valid() && pq.curBlock <= curCycle / 64 && lastLimit <= curCycle
      && QueueOk(g, state, pq.content)
      && TraceOk(g, state, runs, curCycle)
    }

    /** The events of a graph, none of them queued yet, with their parents counted as addChild has done. */
    constructor (graph: Graph, numBlocks: int, recorder: EventRecorder)
      requires graph.Ok() && numBlocks >= 2 && recorder.Valid() && recorder.children == graph.children
      ensures Inv({}) && g == graph && fresh(pq) && fresh(pq.blocks)
      ensures runs == [] && curCycle == 0 && |state| == |g.children|
      ensures forall e | 0 <= e < |state| :: state[e] == EV_NONE
    {
      var n := |graph.children|;
      g := graph;
      pq := new PrioQueue<int>(numBlocks);
      state := seq(n, _ => EV_NONE);
      cycle := seq(n, _ => 0);
      proc := seq(n, _ => 0);
      doneAt := seq(n, _ => 0);
      numParents := recorder.numParents;
      curCycle, lastLimit := 0, 0;
      runs := [];
      new;
      forall e | 0 <= e < n ensures Bk().EvOk(g, e, {}) {
        NoneVisited(g, proc, doneAt, e, n);
      }
    }

    /** A root is queued for the first time. */
    method Queue(e: int)
      requires Inv({}) && 0 <= e < |state| && g.IsRoot(e) && state[e] == EV_NONE
      requires g.queuedAt[e] >= curCycle
      modifies this`state, pq`feMap, pq`elems, pq`content, pq.blocks
      ensures Inv({}) && state == old(state)[e := EV_QUEUED]
    {
      StateMoves(g, Bk(), e, EV_QUEUED, {});
      assert numParents[e] == 0;
      QueueMoves(g, state, e, EV_QUEUED, pq.content);
      Enqueue(e, g.queuedAt[e], {});
    }

    /** An edge from p to c is visited: parentDone on c, which for a delay event is done at once. */
    method ParentDone(p: int, c: int, startCycle: int, ghost active: set<int>)
      requires Inv(active) && 0 <= p < |state|
      requires p in active && state[p] == EV_DONE && proc[p] < |g.children[p]| && c == g.children[p][proc[p]]
      requires startCycle == doneAt[p] + g.post[p] && startCycle >= curCycle
      modifies this`state, this`cycle, this`numParents, this`proc, this`doneAt, pq`feMap, pq`elems, pq`content
      modifies pq.blocks
      ensures Inv(active) && Advances(old(state), state)
      ensures forall e | 0 <= e < |state| && old(state[e]) == EV_DONE ::
        doneAt[e] == old(doneAt[e]) && proc[e] == old(proc[e]) + if e == p then 1 else 0
      decreases |g.children| - g.rank[c], 2
    {
      Collect(p, c, startCycle, active);
      if numParents[c] == 0 {
        LastParentDone(g, Bk(), p, c, active);
        Promote(c, active);
      } else {
        assert Bk().EvOk(g, c, active);
      }
    }

    /** The second part of parentDone, after the last parent: c is queued, or a delay event is done at once. */
    method Promote(c: int, ghost active: set<int>)
      requires Bk().Sized(g) && 0 <= c < |state| && state[c] == EV_NONE && g.rank[c] <= |g.children|
      requires Bk().(state := state[c := if g.isDelay[c] then EV_RUNNING else EV_QUEUED]).AllOk(g, active)
      requires forall a | a in active :: 0 <= a < |state| && state[a] == EV_DONE
      requires cycle[c] + g.pre[c] == RunSpec(g, c) >= curCycle
      requires pq.Valid() && pq.curBlock <= curCycle / 64 && lastLimit <= curCycle
      requires QueueOk(g, state, pq.content) && TraceOk(g, state, runs, curCycle)
      modifies this`state, this`cycle, this`numParents, this`proc, this`doneAt, pq`feMap, pq`elems, pq`content
      modifies pq.blocks
      ensures Inv(active) && Advances(old(state), state)
      ensures forall d | 0 <= d < |state| && old(state[d]) == EV_DONE ::
        doneAt[d] == old(doneAt[d]) && proc[d] == old(proc[d])
      decreases |g.children| - g.rank[c], 1
    {
      QueueMoves(g, state, c, if g.isDelay[c] then EV_RUNNING else EV_QUEUED, pq.content);
      if g.isDelay[c] {
        state := state[c := EV_RUNNING];
        Done(c, cycle[c] + g.pre[c], active);
      } else {
        Enqueue(c, cycle[c] + g.pre[c], active);
      }
    }

    /** ContentionSim::enqueue: c joins the queue at its run time. */
    method Enqueue(c: int, at: int, ghost active: set<int>)
      requires Bk().Sized(g) && 0 <= c < |state| && state[c] == EV_NONE
      requires Bk().(state := state[c := EV_QUEUED]).AllOk(g, active)
      requires forall a | a in active :: 0 <= a < |state| && state[a] == EV_DONE
      requires at == RunSpec(g, c) >= curCycle
      requires pq.Valid() && pq.curBlock <= curCycle / 64 && lastLimit <= curCycle
      requires QueueOk(g, state[c := EV_QUEUED], pq.content + multiset{(RunSpec(g, c), c)})
      requires TraceOk(g, state, runs, curCycle)
      modifies this`state, pq`feMap, pq`elems, pq`content, pq.blocks
      ensures Inv(active) && state == old(state)[c := EV_QUEUED]
    {
      assert at >= lastLimit;
      TraceQueued(g, state, runs, c, curCycle);
      state := state[c := EV_QUEUED];
      pq.Enqueue(c, at);
    }

    /** The first part of parentDone: c notes the cycle and counts the parent off. */
    method Collect(p: int, c: int, startCycle: int, ghost active: set<int>)
      requires Bk().AllOk(g, active) && 0 <= p < |state|
      requires p in active && state[p] == EV_DONE && proc[p] < |g.children[p]| && c == g.children[p][proc[p]]
      requires startCycle == doneAt[p] + g.post[p]
      modifies this`cycle, this`numParents, this`proc
      ensures Bk() == old(Bk()).Visit(g, p)
      ensures Bk().Sized(g) && 0 <= c < |state| && Bk().Counted(g, c) && state[c] == EV_NONE
      ensures forall e {:trigger Bk().EvOk(g, e, active)} | 0 <= e < |state| && e != c :: Bk().EvOk(g, e, active)
    {
      PendingEdge(g, Bk(), p, active);
      VisitCounts(g, Bk(), p, active);
      assert numParents[c] > 0;
      assert state[c] == EV_NONE;
      cycle := cycle[c := Max(cycle[c], startCycle)];
      numParents := numParents[c := numParents[c] - 1];
      proc := proc[p := proc[p] + 1];
      assert Bk() == old(Bk()).Visit(g, p);
    }

    /** e is done: its children are visited one by one. */
    method Done(e: int, doneCycle: int, ghost active: set<int>)
      requires Inv(active) && 0 <= e < |state| && e !in active && state[e] == EV_RUNNING
      requires doneCycle == DoneSpec(g, e) && doneCycle >= curCycle
      modifies this`state, this`cycle, this`numParents, this`proc, this`doneAt, pq`feMap, pq`elems, pq`content
      modifies pq.blocks
      ensures Inv(active) && Advances(old(state)[e := EV_DONE], state)
      ensures forall d | 0 <= d < |state| && old(state[d]) == EV_DONE ::
        doneAt[d] == old(doneAt[d]) && proc[d] == old(proc[d])
      decreases |g.children| - g.rank[e], 0, 1
    {
      MarkDone(e, doneCycle, active);
      VisitChildren(e, doneCycle, active);
      VisitsDone(g, Bk(), e, active);
    }

    method MarkDone(e: int, doneCycle: int, ghost active: set<int>)
      requires Inv(active) && 0 <= e < |state| && e !in active && state[e] == EV_RUNNING
      requires doneCycle == DoneSpec(g, e)
      modifies this`state, this`doneAt
      ensures Inv(active + {e}) && proc[e] == 0
      ensures state == old(state)[e := EV_DONE] && doneAt == old(doneAt)[e := doneCycle]
    {
      DoneMarked(g, Bk(), e, active);
      QueueMoves(g, state, e, EV_DONE, pq.content);
      assert Bk().EvOk(g, e, active);
      state := state[e := EV_DONE];
      doneAt := doneAt[e := doneCycle];
    }

    /** visitChildren: parentDone on every child of e. */
    method VisitChildren(e: int, doneCycle: int, ghost active: set<int>)
      requires Inv(active + {e}) && 0 <= e < |state| && state[e] == EV_DONE && proc[e] == 0
      requires doneCycle == doneAt[e] && doneCycle >= curCycle
      modifies this`state, this`cycle, this`numParents, this`proc, this`doneAt, pq`feMap, pq`elems, pq`content
      modifies pq.blocks
      ensures Inv(active + {e}) && |proc| == |state| && proc[e] == |g.children[e]| && Advances(old(state), state)
      ensures forall d | 0 <= d < |state| && old(state[d]) == EV_DONE ::
        doneAt[d] == old(doneAt[d]) && (d != e ==> proc[d] == old(proc[d]))
      decreases |g.children| - g.rank[e], 0, 0
    {
      var i := 0;
      while i < |g.children[e]|
        invariant Inv(active + {e})
        invariant 0 <= i <= |g.children[e]| && Advances(old(state), state)
        invariant proc[e] == i && doneAt[e] == doneCycle
        invariant forall d | 0 <= d < |state| && d != e && old(state[d]) == EV_DONE ::
          doneAt[d] == old(doneAt[d]) && proc[d] == old(proc[d])
      {
        ParentDone(e, g.children[e][i], doneCycle + g.post[e], active + {e});
        i := i + 1;
      }
    }

    /** A dequeued event runs: its simulation takes its service time and then calls done. */
    method Run(te: int, startCycle: int)
      requires Bk().AllOk(g, {}) && pq.Valid() && 0 <= te < |state| && state[te] == EV_QUEUED
      requires startCycle == RunSpec(g, te) == curCycle && pq.curBlock <= curCycle / 64 && lastLimit <= curCycle
      requires QueueOk(g, state[te := EV_RUNNING], pq.content) && TraceOk(g, state, runs, curCycle)
      modifies this`state, this`cycle, this`numParents, this`proc, this`doneAt, this`runs
      modifies pq`feMap, pq`elems, pq`content, pq.blocks
      ensures Inv({}) && Advances(old(state)[te := EV_DONE], state)
      ensures runs == old(runs) + [(startCycle, te)]
    {
      Start(te, startCycle);
      Done(te, startCycle + g.service(te, startCycle), {});
    }

    method Start(te: int, startCycle: int)
      requires Bk().AllOk(g, {}) && pq.Valid() && 0 <= te < |state| && state[te] == EV_QUEUED
      requires startCycle == RunSpec(g, te) == curCycle && pq.curBlock <= curCycle / 64 && lastLimit <= curCycle
      requires QueueOk(g, state[te := EV_RUNNING], pq.content) && TraceOk(g, state, runs, curCycle)
      modifies this`state, this`runs
      ensures Inv({}) && state == old(state)[te := EV_RUNNING] && runs == old(runs) + [(startCycle, te)]
      ensures !g.isDelay[te]
    {
      StateMoves(g, Bk(), te, EV_RUNNING, {});
      assert Bk().EvOk(g, te, {});
      TraceGrows(g, state, runs, te, curCycle);
      state := state[te := EV_RUNNING];
      runs := runs + [(startCycle, te)];
    }

    ghost function Undone(): set<int>
      reads this
    {
      set e | 0 <= e < |state| && state[e] != EV_DONE
    }

    /** Between events nothing is running. */
    ghost predicate Quiet()
      reads this
    {
      forall e | 0 <= e < |state| :: state[e] != EV_RUNNING
    }

    /** One round of the phase loop: the first event is dequeued and run. */
    method Step() returns (te: int)
      requires Inv({}) && Quiet() && pq.elems != 0
      modifies this`state, this`cycle, this`numParents, this`proc, this`doneAt, this`runs, this`curCycle
      modifies pq, pq.blocks
      ensures Inv({}) && Quiet() && 0 <= te < |old(state)| && Advances(old(state)[te := EV_DONE], state)
      ensures IsFirst(old(pq.content), curCycle) && old(curCycle) <= curCycle && pq.curBlock == curCycle / 64
      ensures runs == old(runs) + [(curCycle, te)]
      ensures Undone() < old(Undone())
    {
      te := Take();
      Run(te, curCycle);
      assert te in old(Undone()) && te !in Undone();
    }

    /** The first event is dequeued and the domain's clock moves up to it. */
    method Take() returns (te: int)
      requires Inv({}) && pq.elems != 0
      modifies this`curCycle, pq, pq.blocks
      ensures Bk().AllOk(g, {}) && pq.Valid() && 0 <= te < |state| && state[te] == EV_QUEUED
      ensures curCycle == RunSpec(g, te) && pq.curBlock == curCycle / 64 && old(curCycle) <= curCycle
      ensures IsFirst(old(pq.content), curCycle)
      ensures QueueOk(g, state[te := EV_RUNNING], pq.content) && TraceOk(g, state, runs, curCycle)
    {
      var c;
      te, c := pq.Dequeue();
      QueueEntry(g, Bk(), old(pq.content), c, te);
      assert c >= curCycle;
      forall k, e | (k, e) in old(pq.content) ensures c <= k {
      }
      ClockMoves(g, Bk(), runs, old(pq.content), c);
      curCycle := c;
      QueueMoves(g, state, te, EV_RUNNING, old(pq.content));
    }

    /** The phase: run events in cycle order until none below the limit remains. */
    method SimulatePhase(limit: int)
      requires Inv({}) && Quiet() && limit >= curCycle
      modifies this`state, this`cycle, this`numParents, this`proc, this`doneAt, this`runs, this`curCycle, this`lastLimit
      modifies pq, pq.blocks
      ensures Inv({}) && Quiet() && curCycle == lastLimit == limit && Forward(old(state), state)
      ensures old(runs) <= runs && forall i | |old(runs)| <= i < |runs| :: runs[i].0 < limit
      ensures forall e | 0 <= e < |state| && state[e] == EV_QUEUED :: RunSpec(g, e) >= limit
    {
      RunBelow(limit);
      ClockMoves(g, Bk(), runs, pq.content, limit);
      curCycle := limit;
      lastLimit := limit;
      forall e | 0 <= e < |state| && state[e] == EV_QUEUED ensures RunSpec(g, e) >= limit {
        assert Bk().EvOk(g, e, {});
      }
    }

    /** The phase's loop. */
    method RunBelow(limit: int)
      requires Inv({}) && Quiet() && limit >= curCycle
      modifies this`state, this`cycle, this`numParents, this`proc, this`doneAt, this`runs, this`curCycle
      modifies pq, pq.blocks
      ensures Inv({}) && Quiet() && pq.curBlock <= limit / 64 && Forward(old(state), state)
      ensures old(runs) <= runs && forall i | |old(runs)| <= i < |runs| :: runs[i].0 < limit
      ensures forall i | 0 <= i < |runs| :: runs[i].0 <= limit
      ensures forall c: int, e: int | (c, e) in pq.content :: limit <= c
    {
      var first := NextCycle(limit);
      while pq.elems != 0 && first < limit
        invariant Inv({}) && Quiet() && Forward(old(state), state)
        invariant pq.curBlock <= limit / 64
        invariant if pq.elems != 0 then IsFirst(pq.content, first) else first == limit
        invariant old(runs) <= runs && forall i | |old(runs)| <= i < |runs| :: runs[i].0 < limit
        invariant forall i | 0 <= i < |runs| :: runs[i].0 <= limit
        decreases Undone()
      {
        first := Round(limit);
      }
    }

    /** A phase long enough for everything: once every root has been queued and every event's longest-path time is
        below the limit, each event ends up done at its time; each that is not a mere delay has run exactly once,
        at its time and after its parents, in cycle order. */
    method SimulateAll(limit: int)
      requires Inv({}) && Quiet() && limit >= curCycle
      requires forall e | 0 <= e < |state| && g.IsRoot(e) :: state[e] != EV_NONE
      requires forall e | 0 <= e < |g.children| :: RunSpec(g, e) < limit
      modifies this`state, this`cycle, this`numParents, this`proc, this`doneAt, this`runs, this`curCycle, this`lastLimit
      modifies pq, pq.blocks
      ensures |state| == |doneAt| == |g.children| && |old(state)| == |state|
      ensures forall e | 0 <= e < |state| :: state[e] == EV_DONE && doneAt[e] == DoneSpec(g, e)
      ensures forall e | 0 <= e < |state| && !g.isDelay[e] ::
                exists i :: 0 <= i < |runs| && runs[i] == (RunSpec(g, e), e)
      ensures forall i, j | 0 <= i < j < |runs| :: runs[i].0 <= runs[j].0 && runs[i].1 != runs[j].1
      ensures Timed(g, runs, doneAt)
    {
      SimulatePhase(limit);
      AllLeftQueue();
      forall e | 0 <= e < |state| ensures state[e] == EV_DONE && doneAt[e] == DoneSpec(g, e) {
        AllDone(g, Bk(), pq.content, e);
      }
      FinishedTrace(g, Bk(), pq.content, runs);
    }

    /** With no event queued, the queue is empty. */
    lemma AllLeftQueue()
      requires Inv({}) && forall e | 0 <= e < |state| :: state[e] != EV_QUEUED
      ensures pq.content == multiset{}
    {
      forall x | x in pq.content ensures false {
        QueueEntry(g, Bk(), pq.content, x.0, x.1);
      }
    }

    /** The loop's body: run the first event, then move the clock up to the next one. */
    method Round(limit: int) returns (first: int)
      requires Inv({}) && Quiet() && pq.elems != 0
      requires forall c | IsFirst(pq.content, c) :: c < limit
      modifies this`state, this`cycle, this`numParents, this`proc, this`doneAt, this`runs, this`curCycle
      modifies pq, pq.blocks
      ensures Inv({}) && Quiet() && Forward(old(state), state) && Undone() < old(Undone())
      ensures if pq.elems != 0 then IsFirst(pq.content, first) else first == limit
      ensures exists c, e :: c < limit && runs == old(runs) + [(c, e)] && pq.curBlock == c / 64
    {
      var te := Step();
      ghost var ran := curCycle;
      first := NextCycle(limit);
      if pq.elems != 0 {
        ghost var e: int :| (first, e) in pq.content;
        QueueEntry(g, Bk(), pq.content, first, e);
      }
      assert first >= curCycle;
      ClockMoves(g, Bk(), runs, pq.content, first);
      curCycle := first;
      assert ran < limit && runs == old(runs) + [(ran, te)];
    }

    /** The cycle of the first queued event, or the limit if there is none. */
    method NextCycle(limit: int) returns (c: int)
      requires pq.Valid()
      ensures if pq.elems != 0 then IsFirst(pq.content, c) else c == limit
    {
      c := limit;
      var size := pq.Size();
      if size != 0 {
        ghost var who;
        c, who := pq.FirstCycle();
      }
    }
  }
}
