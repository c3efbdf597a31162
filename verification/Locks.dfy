/** The locks of the cache hierarchy: the order in which accesses, evictions and invalidations of any lines take
    and drop the top and bottom controller locks and the filter locks, why no set of threads deadlocks, and why no
    two threads use one cache's line states, directory or filter at the same time.
    The lines' trees may differ in the bank they use at each level, so all that is assumed is that a cache's
    parents are one level above it and its children one level below.
 */
module Locks {

  /** A top or bottom controller's lock, or the filter lock of a terminal cache. */
  datatype Lock = Top(cache: int) | Bottom(cache: int) | Filter(cache: int)

  /** Touch is a use of what the lock guards: with the bottom lock the line states and the directory of a cache, with
      the top lock its turn among requests from below, with the filter lock the entries of a filter. */
  datatype Op = Acquire(l: Lock) | Release(l: Lock) | Touch(l: Lock)

  /** The level of each cache, 0 for the last-level cache, all below depth. */
  datatype Levels = Levels(level: int -> nat, depth: nat) {
    /** The order of acquisition: top locks from the cores upwards, then bottom locks downwards, filters last. */
    function Rank(l: Lock): int {
      match l
      case Top(n) => -(level(n) as int) - 1
      case Bottom(n) => level(n)
      case Filter(n) => depth
    }
  }

  // ---------------------------------------------------------------- what an access does to the locks

  /** An invalidation that reaches a cache, and then the children that its directory lists. */
  datatype Visit = Visit(cache: int, terminal: bool, below: seq<Visit>)

  /** A request taken up by a cache: the invalidations and the PUT of an eviction, the GET to the parent, and the
      invalidations that answering the child takes; or a request to memory, which takes no lock. */
  datatype Climb = Memory | Climb(cache: int, terminal: bool, evicted: seq<Visit>, put: Climb, get: Climb,
                                  granted: seq<Visit>)

  function VisitOps(v: Visit): seq<Op>
    decreases v
  {
    if v.terminal then
      TerminalOps(v.cache)
    else
      [Acquire(Bottom(v.cache))] + VisitsOps(v.below) + [Touch(Bottom(v.cache)), Release(Bottom(v.cache))]
  }

  function TerminalOps(n: int): seq<Op> {
    [Acquire(Bottom(n)), Acquire(Filter(n))] + [Touch(Filter(n)), Touch(Bottom(n))]
    + [Release(Bottom(n)), Release(Filter(n))]
  }

  function VisitsOps(vs: seq<Visit>): seq<Op>
    decreases vs
  {
    if vs == [] then [] else VisitOps(vs[0]) + VisitsOps(vs[1..])
  }

  /** The child's lock is dropped first and taken again at the end, before the cache's own are dropped. */
  function ClimbOps(k: Climb, child: Lock): seq<Op>
    decreases k
  {
    match k
    case Memory => []
    case Climb(n, terminal, evicted, put, get, granted) =>
      [Release(child)] + EnterOps(n, terminal) + UseOps(n, terminal)
      + (VisitsOps(evicted) + ClimbOps(put, Bottom(n)) + ClimbOps(get, Bottom(n)) + VisitsOps(granted))
      + UseOps(n, terminal) + LeaveOps(n, terminal, child)
  }

  /** The lookup and the race check before, the new states after. */
  function UseOps(n: int, terminal: bool): seq<Op> {
    if terminal then [Touch(Bottom(n))] else [Touch(Top(n)), Touch(Bottom(n))]
  }

  function EnterOps(n: int, terminal: bool): seq<Op> {
    if terminal then [Acquire(Bottom(n))] else [Acquire(Top(n)), Acquire(Bottom(n))]
  }

  function LeaveOps(n: int, terminal: bool, child: Lock): seq<Op> {
    if terminal then [Acquire(child), Release(Bottom(n))] else [Acquire(child), Release(Bottom(n)), Release(Top(n))]
  }

  ghost predicate VisitOk(h: Levels, v: Visit, l: int)
    decreases v
  {
    h.level(v.cache) == l < h.depth && VisitsOk(h, v.below, l + 1)
  }

  ghost predicate VisitsOk(h: Levels, vs: seq<Visit>, l: int)
    decreases vs
  {
    vs != [] ==> VisitOk(h, vs[0], l) && VisitsOk(h, vs[1..], l)
  }

  ghost predicate ClimbOk(h: Levels, k: Climb, l: int)
    decreases k
  {
    match k
    case Memory => true
    case Climb(n, terminal, evicted, put, get, granted) =>
      && h.level(n) == l < h.depth
      && VisitsOk(h, evicted, l + 1) && VisitsOk(h, granted, l + 1)
      && ClimbOk(h, put, l - 1) && ClimbOk(h, get, l - 1)
  }

  // ---------------------------------------------------------------- the discipline

  datatype Outcome = Broken | Holding(locks: set<Lock>)

  ghost predicate Below(h: Levels, held: set<Lock>, rank: int) {
    forall m | m in held :: h.Rank(m) < rank
  }

  /** What a thread holds after an operation; broken if it takes a lock out of order, or drops or relies on one that
      it has not. */
  ghost function One(h: Levels, held: set<Lock>, op: Op): Outcome {
    if op.Acquire? then (if Below(h, held, h.Rank(op.l)) then Holding(held + {op.l}) else Broken)
    else if op.l in held then Holding(if op.Release? then held - {op.l} else held)
    else Broken
  }

  ghost function After(h: Levels, held: set<Lock>, ops: seq<Op>): Outcome
    decreases |ops|
  {
    if ops == [] then Holding(held)
    else
      var o := One(h, held, ops[0]);
      if o.Broken? then Broken else After(h, o.locks, ops[1..])
  }

  lemma {:induction false} AfterConcat(h: Levels, held: set<Lock>, a: seq<Op>, b: seq<Op>)
    ensures var o := After(h, held, a); After(h, held, a + b) == if o.Broken? then Broken else After(h, o.locks, b)
    decreases |a|
  {
    if a == [] {
      assert a + b == b;
    } else {
      assert (a + b)[1..] == a[1..] + b;
      var o := One(h, held, a[0]);
      if o.Holding? {
        AfterConcat(h, o.locks, a[1..], b);
      }
    }
  }

  lemma OneOp(h: Levels, held: set<Lock>, op: Op)
    ensures After(h, held, [op]) == One(h, held, op)
  {
    assert [op][1..] == [];
  }

  /** An invalidation takes its locks downwards and drops them all. */
  lemma {:induction false} VisitHolds(h: Levels, v: Visit, l: int, held: set<Lock>)
    requires VisitOk(h, v, l) && Below(h, held, l)
    ensures After(h, held, VisitOps(v)) == Holding(held)
    decreases v
  {
    var b, f := Bottom(v.cache), Filter(v.cache);
    if v.terminal {
      TerminalVisit(h, held, v.cache);
    } else {
      VisitsHold(h, v.below, l + 1, held + {b});
      AfterConcat(h, held, [Acquire(b)] + VisitsOps(v.below), [Touch(b), Release(b)]);
      AfterConcat(h, held, [Acquire(b)], VisitsOps(v.below));
      OneOp(h, held, Acquire(b));
      TwoOps(h, held + {b}, Touch(b), Release(b));
      assert held + {b} - {b} == held;
    }
  }

  lemma TwoOps(h: Levels, held: set<Lock>, x: Op, y: Op)
    requires One(h, held, x).Holding?
    ensures After(h, held, [x, y]) == One(h, One(h, held, x).locks, y)
  {
    OneOp(h, held, x);
    OneOp(h, One(h, held, x).locks, y);
    AfterConcat(h, held, [x], [y]);
    assert [x] + [y] == [x, y];
  }

  lemma TerminalVisit(h: Levels, held: set<Lock>, n: int)
    requires Below(h, held, h.level(n)) && h.level(n) < h.depth
    ensures After(h, held, TerminalOps(n)) == Holding(held)
  {
    var b, f := Bottom(n), Filter(n);
    var both := held + {b} + {f};
    TwoOps(h, held, Acquire(b), Acquire(f));
    TwoOps(h, both, Touch(f), Touch(b));
    TwoOps(h, both, Release(b), Release(f));
    AfterConcat(h, held, [Acquire(b), Acquire(f)] + [Touch(f), Touch(b)], [Release(b), Release(f)]);
    AfterConcat(h, held, [Acquire(b), Acquire(f)], [Touch(f), Touch(b)]);
    assert both - {b} - {f} == held;
  }

  lemma UseHolds(h: Levels, n: int, terminal: bool, held: set<Lock>)
    requires Bottom(n) in held && (!terminal ==> Top(n) in held)
    ensures After(h, held, UseOps(n, terminal)) == Holding(held)
  {
    if terminal {
      OneOp(h, held, Touch(Bottom(n)));
    } else {
      TwoOps(h, held, Touch(Top(n)), Touch(Bottom(n)));
    }
  }

  lemma {:induction false} VisitsHold(h: Levels, vs: seq<Visit>, l: int, held: set<Lock>)
    requires VisitsOk(h, vs, l) && Below(h, held, l)
    ensures After(h, held, VisitsOps(vs)) == Holding(held)
    decreases vs
  {
    if vs != [] {
      VisitHolds(h, vs[0], l, held);
      VisitsHold(h, vs[1..], l, held);
      AfterConcat(h, held, VisitOps(vs[0]), VisitsOps(vs[1..]));
    }
  }

  /** A request from a child whose lock is held: all other locks held are top locks from further down. */
  ghost predicate FromBelow(h: Levels, held: set<Lock>, child: Lock, l: int) {
    child in held && h.Rank(child) > l && Below(h, held - {child}, -l - 1)
  }

  lemma EnterHolds(h: Levels, n: int, terminal: bool, held: set<Lock>, child: Lock)
    requires FromBelow(h, held, child, h.level(n))
    ensures var own := if terminal then {Bottom(n)} else {Top(n), Bottom(n)};
      After(h, held, [Release(child)] + EnterOps(n, terminal)) == Holding(held - {child} + own)
  {
    var rest := held - {child};
    AfterConcat(h, held, [Release(child)], EnterOps(n, terminal));
    OneOp(h, held, Release(child));
    if terminal {
      OneOp(h, rest, Acquire(Bottom(n)));
    } else {
      assert EnterOps(n, terminal) == [Acquire(Top(n))] + [Acquire(Bottom(n))];
      AfterConcat(h, rest, [Acquire(Top(n))], [Acquire(Bottom(n))]);
      OneOp(h, rest, Acquire(Top(n)));
      OneOp(h, rest + {Top(n)}, Acquire(Bottom(n)));
      assert rest + {Top(n)} + {Bottom(n)} == rest + {Top(n), Bottom(n)};
    }
  }

  lemma LeaveHolds(h: Levels, n: int, terminal: bool, held: set<Lock>, child: Lock)
    requires FromBelow(h, held, child, h.level(n))
    ensures var own := if terminal then {Bottom(n)} else {Top(n), Bottom(n)};
      After(h, held - {child} + own, LeaveOps(n, terminal, child)) == Holding(held)
  {
    var b, t := Bottom(n), Top(n);
    var own := if terminal then {b} else {t, b};
    var in0 := held - {child} + own;
    assert b !in held && t !in held;
    OneOp(h, in0, Acquire(child));
    OneOp(h, in0 + {child}, Release(b));
    AfterConcat(h, in0, [Acquire(child)], [Release(b)]);
    assert [Acquire(child)] + [Release(b)] == [Acquire(child), Release(b)];
    if terminal {
      assert in0 + {child} - {b} == held;
    } else {
      OneOp(h, in0 + {child} - {b}, Release(t));
      AfterConcat(h, in0, [Acquire(child), Release(b)], [Release(t)]);
      assert [Acquire(child), Release(b)] + [Release(t)] == LeaveOps(n, terminal, child);
      assert in0 + {child} - {b} - {t} == held;
    }
  }

  /** A request takes every lock in order, however far it climbs and whatever it evicts or invalidates on the
      way, and leaves the thread with what it held. */
  lemma {:induction false} ClimbHolds(h: Levels, k: Climb, l: int, held: set<Lock>, child: Lock)
    requires ClimbOk(h, k, l) && FromBelow(h, held, child, l)
    ensures After(h, held, ClimbOps(k, child)) == Holding(held)
    decreases k
  {
    match k
    case Memory =>
    case Climb(n, terminal, evicted, put, get, granted) =>
      var own := if terminal then {Bottom(n)} else {Top(n), Bottom(n)};
      var in0 := held - {child} + own;
      EnterHolds(h, n, terminal, held, child);
      LeaveHolds(h, n, terminal, held, child);
      VisitsHold(h, evicted, l + 1, in0);
      VisitsHold(h, granted, l + 1, in0);
      assert in0 - {Bottom(n)} <= held - {child} + {Top(n)};
      ClimbHolds(h, put, l - 1, in0, Bottom(n));
      ClimbHolds(h, get, l - 1, in0, Bottom(n));
      InsideHolds(h, k, in0);
      UseHolds(h, n, terminal, in0);
      var enter, use := [Release(child)] + EnterOps(n, terminal), UseOps(n, terminal);
      var inside := VisitsOps(evicted) + ClimbOps(put, Bottom(n)) + ClimbOps(get, Bottom(n)) + VisitsOps(granted);
      AfterConcat(h, held, enter + use + inside + use, LeaveOps(n, terminal, child));
      AfterConcat(h, held, enter + use + inside, use);
      AfterConcat(h, held, enter + use, inside);
      AfterConcat(h, held, enter, use);
  }

  lemma InsideHolds(h: Levels, k: Climb, held: set<Lock>)
    requires k.Climb?
    requires After(h, held, VisitsOps(k.evicted)) == Holding(held)
      && After(h, held, VisitsOps(k.granted)) == Holding(held)
    requires After(h, held, ClimbOps(k.put, Bottom(k.cache))) == Holding(held)
    requires After(h, held, ClimbOps(k.get, Bottom(k.cache))) == Holding(held)
    ensures After(h, held, VisitsOps(k.evicted) + ClimbOps(k.put, Bottom(k.cache)) + ClimbOps(k.get, Bottom(k.cache))
      + VisitsOps(k.granted)) == Holding(held)
  {
    var a, b, c, d := VisitsOps(k.evicted), ClimbOps(k.put, Bottom(k.cache)), ClimbOps(k.get, Bottom(k.cache)),
      VisitsOps(k.granted);
    AfterConcat(h, held, a, b);
    AfterConcat(h, held, a + b, c);
    AfterConcat(h, held, a + b + c, d);
  }

  // ---------------------------------------------------------------- what is used

  ghost function Touched(ops: seq<Op>): set<Lock> {
    set op | op in ops && op.Touch? :: op.l
  }

  lemma TouchedConcat(a: seq<Op>, b: seq<Op>)
    ensures Touched(a + b) == Touched(a) + Touched(b)
  {
    forall l ensures l in Touched(a + b) <==> l in Touched(a) + Touched(b) {
      assert Touch(l) in a + b <==> Touch(l) in a || Touch(l) in b;
    }
  }

  /** The line states of every cache that an invalidation visits, and the filters of the terminal ones. */
  ghost function Visited(v: Visit): set<Lock>
    decreases v
  {
    {Bottom(v.cache)} + if v.terminal then {Filter(v.cache)} else AllVisited(v.below)
  }

  ghost function AllVisited(vs: seq<Visit>): set<Lock>
    decreases vs
  {
    if vs == [] then {} else Visited(vs[0]) + AllVisited(vs[1..])
  }

  /** The line states and directories of every cache that a request climbs to, and what it invalidates. */
  ghost function Climbed(k: Climb): set<Lock>
    decreases k
  {
    match k
    case Memory => {}
    case Climb(n, terminal, evicted, put, get, granted) =>
      (if terminal then {Bottom(n)} else {Top(n), Bottom(n)})
      + AllVisited(evicted) + Climbed(put) + Climbed(get) + AllVisited(granted)
  }

  lemma {:induction false} VisitTouches(v: Visit)
    ensures Touched(VisitOps(v)) == Visited(v)
    decreases v
  {
    var b, f := Bottom(v.cache), Filter(v.cache);
    if v.terminal {
      TouchedConcat([Acquire(b), Acquire(f)] + [Touch(f), Touch(b)], [Release(b), Release(f)]);
      TouchedConcat([Acquire(b), Acquire(f)], [Touch(f), Touch(b)]);
      TouchedTwo(Acquire(b), Acquire(f));
      TouchedTwo(Touch(f), Touch(b));
      TouchedTwo(Release(b), Release(f));
    } else {
      TouchedConcat([Acquire(b)] + VisitsOps(v.below), [Touch(b), Release(b)]);
      TouchedConcat([Acquire(b)], VisitsOps(v.below));
      TouchedTwo(Acquire(b), Acquire(b));
      TouchedTwo(Touch(b), Release(b));
      VisitsTouch(v.below);
    }
  }

  lemma TouchedTwo(x: Op, y: Op)
    ensures Touched([x]) == if x.Touch? then {x.l} else {}
    ensures Touched([x, y]) == (if x.Touch? then {x.l} else {}) + if y.Touch? then {y.l} else {}
  {
    assert x in [x] && x in [x, y] && y in [x, y];
  }

  lemma {:induction false} VisitsTouch(vs: seq<Visit>)
    ensures Touched(VisitsOps(vs)) == AllVisited(vs)
    decreases vs
  {
    if vs != [] {
      VisitTouches(vs[0]);
      VisitsTouch(vs[1..]);
      TouchedConcat(VisitOps(vs[0]), VisitsOps(vs[1..]));
    }
  }

  /** A request uses exactly the caches on its way and those it invalidates. */
  lemma {:induction false} ClimbTouches(k: Climb, child: Lock)
    ensures Touched(ClimbOps(k, child)) == Climbed(k)
    decreases k
  {
    match k
    case Memory =>
    case Climb(n, terminal, evicted, put, get, granted) =>
      ClimbTouches(put, Bottom(n));
      ClimbTouches(get, Bottom(n));
      InsideTouches(k);
      EnterTouches(n, terminal, child);
      var enter, use := [Release(child)] + EnterOps(n, terminal), UseOps(n, terminal);
      var inside := VisitsOps(evicted) + ClimbOps(put, Bottom(n)) + ClimbOps(get, Bottom(n)) + VisitsOps(granted);
      TouchedConcat(enter + use + inside + use, LeaveOps(n, terminal, child));
      TouchedConcat(enter + use + inside, use);
      TouchedConcat(enter + use, inside);
      TouchedConcat(enter, use);
  }

  lemma InsideTouches(k: Climb)
    requires k.Climb?
    ensures var a, b, c, d := VisitsOps(k.evicted), ClimbOps(k.put, Bottom(k.cache)),
                              ClimbOps(k.get, Bottom(k.cache)), VisitsOps(k.granted);
            Touched(a + b + c + d) == AllVisited(k.evicted) + Touched(b) + Touched(c) + AllVisited(k.granted)
  {
    var a, b, c, d := VisitsOps(k.evicted), ClimbOps(k.put, Bottom(k.cache)), ClimbOps(k.get, Bottom(k.cache)),
      VisitsOps(k.granted);
    VisitsTouch(k.evicted);
    VisitsTouch(k.granted);
    TouchedConcat(a + b + c, d);
    TouchedConcat(a + b, c);
    TouchedConcat(a, b);
  }

  lemma EnterTouches(n: int, terminal: bool, child: Lock)
    ensures Touched([Release(child)] + EnterOps(n, terminal)) == {} && Touched(LeaveOps(n, terminal, child)) == {}
    ensures Touched(UseOps(n, terminal)) == if terminal then {Bottom(n)} else {Top(n), Bottom(n)}
  {
    TouchedTwo(Touch(Bottom(n)), Touch(Bottom(n)));
    TouchedTwo(Touch(Top(n)), Touch(Bottom(n)));
  }

  // ---------------------------------------------------------------- threads

  /** What a core does: an access that its filter does not take, or a context switch. */
  datatype Task = Miss(n: int, put: Climb, get: Climb) | ContextSwitch(n: int)

  ghost predicate TaskOk(h: Levels, a: Task) {
    h.level(a.n) < h.depth && (a.Miss? ==> ClimbOk(h, a.put, h.level(a.n) - 1) && ClimbOk(h, a.get, h.level(a.n) - 1))
  }

  function TaskOps(a: Task): seq<Op> {
    match a
    case Miss(n, put, get) => [Acquire(Filter(n))] + ClimbOps(Climb(n, true, [], put, get, []), Filter(n))
      + [Touch(Filter(n)), Release(Filter(n))]
    case ContextSwitch(n) => [Acquire(Filter(n))] + [] + [Touch(Filter(n)), Release(Filter(n))]
  }

  lemma TaskHolds(h: Levels, a: Task)
    requires TaskOk(h, a)
    ensures After(h, {}, TaskOps(a)) == Holding({})
  {
    var f := Filter(a.n);
    var inner := if a.Miss? then ClimbOps(Climb(a.n, true, [], a.put, a.get, []), f) else [];
    if a.Miss? {
      ClimbHolds(h, Climb(a.n, true, [], a.put, a.get, []), h.level(a.n), {f}, f);
    }
    AfterConcat(h, {}, [Acquire(f)] + inner, [Touch(f), Release(f)]);
    AfterConcat(h, {}, [Acquire(f)], inner);
    OneOp(h, {}, Acquire(f));
    TwoOps(h, {f}, Touch(f), Release(f));
    assert {} + {f} == {f} && {f} - {f} == {};
  }

  /** An access uses its core's filter and the caches it climbs to or invalidates; a context switch the filter. */
  lemma TaskTouches(a: Task)
    ensures Touched(TaskOps(a)) == {Filter(a.n)}
                                   + if a.Miss? then Climbed(Climb(a.n, true, [], a.put, a.get, [])) else {}
  {
    var f := Filter(a.n);
    var inner := if a.Miss? then ClimbOps(Climb(a.n, true, [], a.put, a.get, []), f) else [];
    if a.Miss? {
      ClimbTouches(Climb(a.n, true, [], a.put, a.get, []), f);
    }
    TouchedConcat([Acquire(f)] + inner, [Touch(f), Release(f)]);
    TouchedConcat([Acquire(f)], inner);
    TouchedTwo(Acquire(f), Acquire(f));
    TouchedTwo(Touch(f), Release(f));
  }

  function TasksOps(tasks: seq<Task>): seq<Op> {
    if tasks == [] then [] else TaskOps(tasks[0]) + TasksOps(tasks[1..])
  }

  lemma {:induction false} TasksHold(h: Levels, tasks: seq<Task>)
    requires forall i | 0 <= i < |tasks| :: TaskOk(h, tasks[i])
    ensures After(h, {}, TasksOps(tasks)) == Holding({})
  {
    if tasks != [] {
      TaskHolds(h, tasks[0]);
      TasksHold(h, tasks[1..]);
      AfterConcat(h, {}, TaskOps(tasks[0]), TasksOps(tasks[1..]));
    }
  }

  /** The locks a thread holds and what it has left to do. */
  datatype Thread = Thread(held: set<Lock>, todo: seq<Op>)

  /** The thread's next operation can be done: a lock it wants is free. */
  predicate CanStep(ts: seq<Thread>, i: int) {
    && 0 <= i < |ts| && ts[i].todo != []
    && (ts[i].todo[0].Acquire? ==> forall j | 0 <= j < |ts| :: ts[i].todo[0].l !in ts[j].held)
  }

  function Step(ts: seq<Thread>, i: int): seq<Thread>
    requires CanStep(ts, i)
  {
    var th := ts[i];
    var op := th.todo[0];
    var held := if op.Acquire? then th.held + {op.l} else if op.Release? then th.held - {op.l} else th.held;
    ts[i := Thread(held, th.todo[1..])]
  }

  /** Every thread keeps to the order to the end, and no lock has two holders. */
  ghost predicate Orderly(h: Levels, ts: seq<Thread>) {
    && (forall i | 0 <= i < |ts| :: After(h, ts[i].held, ts[i].todo) == Holding({}))
    && (forall i, j | 0 <= i < j < |ts| :: ts[i].held !! ts[j].held)
  }

  lemma StepKeeps(h: Levels, ts: seq<Thread>, i: int)
    requires Orderly(h, ts) && CanStep(ts, i)
    ensures Orderly(h, Step(ts, i))
  {
    assert After(h, ts[i].held, ts[i].todo) == Holding({});
  }

  /** The thread whose wanted lock ranks highest among the waiting ones, if any waits. */
  lemma {:induction false} Highest(h: Levels, ts: seq<Thread>, n: nat) returns (m: int)
    requires n <= |ts|
    ensures -1 <= m < n && (m == -1 ==> forall i | 0 <= i < n :: !Wants(ts, i))
    ensures m >= 0 ==> Wants(ts, m) && forall i | 0 <= i < n && Wants(ts, i) ::
      h.Rank(ts[i].todo[0].l) <= h.Rank(ts[m].todo[0].l)
  {
    if n == 0 {
      m := -1;
    } else {
      m := Highest(h, ts, n - 1);
      if Wants(ts, n - 1) && (m == -1 || h.Rank(ts[n - 1].todo[0].l) > h.Rank(ts[m].todo[0].l)) {
        m := n - 1;
      }
    }
  }

  ghost predicate Wants(ts: seq<Thread>, i: int)
    requires 0 <= i < |ts|
  {
    ts[i].todo != [] && ts[i].todo[0].Acquire?
  }

  /** Threads that keep to the order never all wait for each other. */
  lemma SomeoneCanStep(h: Levels, ts: seq<Thread>, busy: int) returns (i: int)
    requires Orderly(h, ts) && 0 <= busy < |ts| && ts[busy].todo != []
    ensures CanStep(ts, i)
  {
    var m := Highest(h, ts, |ts|);
    if m == -1 {
      assert !Wants(ts, busy);
      i := busy;
    } else if CanStep(ts, m) {
      i := m;
    } else {
      var l := ts[m].todo[0].l;
      i :| 0 <= i < |ts| && l in ts[i].held;
      assert After(h, ts[i].held, ts[i].todo) == Holding({});
    }
  }

  /** Where a schedule takes the threads; a thread whose turn comes while it cannot go on is passed over. */
  function Run(ts: seq<Thread>, schedule: seq<int>): (r: seq<Thread>)
    ensures |r| == |ts|
    decreases |schedule|
  {
    if schedule == [] then ts
    else
      var before := Run(ts, schedule[..|schedule| - 1]);
      var i := schedule[|schedule| - 1];
      if CanStep(before, i) then Step(before, i) else before
  }

  function Start(programs: seq<seq<Task>>): seq<Thread> {
    seq(|programs|, i requires 0 <= i < |programs| => Thread({}, TasksOps(programs[i])))
  }

  lemma {:induction false} RunOrderly(h: Levels, programs: seq<seq<Task>>, schedule: seq<int>)
    requires forall p, i | 0 <= p < |programs| && 0 <= i < |programs[p]| :: TaskOk(h, programs[p][i])
    ensures Orderly(h, Run(Start(programs), schedule))
  {
    if schedule == [] {
      forall p | 0 <= p < |programs| ensures After(h, {}, TasksOps(programs[p])) == Holding({}) {
        TasksHold(h, programs[p]);
      }
    } else {
      var before := Run(Start(programs), schedule[..|schedule| - 1]);
      RunOrderly(h, programs, schedule[..|schedule| - 1]);
      if CanStep(before, schedule[|schedule| - 1]) {
        StepKeeps(h, before, schedule[|schedule| - 1]);
      }
    }
  }

  ghost predicate Uses(ts: seq<Thread>, i: int, l: Lock) {
    0 <= i < |ts| && ts[i].todo != [] && ts[i].todo[0] == Touch(l)
  }

  /** No race: no two threads are ever about to use what one lock guards. */
  lemma NoRace(h: Levels, programs: seq<seq<Task>>, schedule: seq<int>, i: int, j: int, l: Lock)
    requires forall p, i | 0 <= p < |programs| && 0 <= i < |programs[p]| :: TaskOk(h, programs[p][i])
    requires Uses(Run(Start(programs), schedule), i, l) && Uses(Run(Start(programs), schedule), j, l)
    ensures i == j
  {
    RunOrderly(h, programs, schedule);
    var ts := Run(Start(programs), schedule);
    assert After(h, ts[i].held, ts[i].todo) == Holding({}) && After(h, ts[j].held, ts[j].todo) == Holding({});
    assert l in ts[i].held && l in ts[j].held;
    assert forall a, b | 0 <= a < b < |ts| :: ts[a].held !! ts[b].held;
  }

  /** No deadlock: whatever accesses to whatever lines any number of threads make, and however they are
      interleaved, as long as some thread has not finished, some thread can go on. */
  lemma NoDeadlock(h: Levels, programs: seq<seq<Task>>, schedule: seq<int>)
    requires forall p, i | 0 <= p < |programs| && 0 <= i < |programs[p]| :: TaskOk(h, programs[p][i])
    ensures var ts := Run(Start(programs), schedule);
      (exists i | 0 <= i < |ts| :: ts[i].todo != []) ==> exists i :: CanStep(ts, i)
  {
    RunOrderly(h, programs, schedule);
    var ts := Run(Start(programs), schedule);
    if busy :| 0 <= busy < |ts| && ts[busy].todo != [] {
      var i := SomeoneCanStep(h, ts, busy);
    }
  }
}
