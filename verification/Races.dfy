/** Accesses and evictions of many threads, interleaved at the points where the controllers drop locks.

    A cache that sends a request to its parent keeps its top-controller lock, so it sends no second one, but
    releases its bottom-controller lock, so that invalidations from above may hit it until the parent takes
    up the request. Between two such points a thread holds the locks of every cache whose entry it reads or
    writes; each step below is one such stretch. The controllers hand a response down one level at a time
    with the child's lock taken before the parent's is dropped, so a response runs down its chain of waiting
    caches as one step.
 */
module Races {
  import opened Topology
  import opened Coherence
  import opened Protocol
  import opened RaceFilter

  /** A request on its way to the parent: its type, the sender's state when it was sent, its flags, and
      whether the parent has taken it up and is waiting for a line of its own.
   */
  datatype Pending = Idle | Req(ty: AccessType, init: MESIState, noExcl: bool, started: bool)

  /** All caches, the request each one has outstanding, and the child whose GET that request is for (-1: none). */
  datatype Conc = Conc(sys: System, pend: seq<Pending>, serving: seq<int>)

  // ---------------------------------------------------------------- steps

  datatype Step =
    | CoreGet(n: int, ty: AccessType, noExcl: bool)  // a core misses in its terminal cache n
    | StoreHit(n: int)                               // a core stores to a line its cache owns
    | Climb(c: int)                                  // the parent takes up c's GET and must ask its own parent
    | Serve(c: int)                                  // the parent, or memory, answers c's GET
    | EvictStart(n: int)                             // n starts to evict the line
    | PutStep(c: int)                                // the parent, or memory, takes up c's PUT

  predicate Waits(z: Conc, c: int)
    requires 0 <= c < |z.pend|
  {
    z.pend[c].Req? && !z.pend[c].started
  }

  /** The parent of c holds what a GET of type ty needs. */
  predicate ParentHits(l: Line, ty: AccessType) {
    if ty == GETX then Own(l.st) else l.st != I
  }

  predicate WellSized(t: Tree, z: Conc) {
    |z.sys.lines| == |z.pend| == |z.serving| == |t|
  }

  predicate IsGet(r: Pending) {
    r.Req? && (r.ty == GETS || r.ty == GETX)
  }

  predicate IsPut(r: Pending) {
    r.Req? && (r.ty == PUTS || r.ty == PUTX)
  }

  predicate Enabled(t: Tree, z: Conc, a: Step)
    requires WellSized(t, z)
  {
    match a
    case CoreGet(n, ty, _) =>
      Terminal(t, n) && z.pend[n] == Idle && (ty == GETS || ty == GETX) && !ParentHits(z.sys.lines[n], ty)
    case StoreHit(n) =>
      Terminal(t, n) && z.pend[n] == Idle && Own(z.sys.lines[n].st)
    case Climb(c) =>
      && 0 < c < |t| && Waits(z, c) && IsGet(z.pend[c])
      && z.pend[t[c]] == Idle && !ParentHits(z.sys.lines[t[c]], z.pend[c].ty)
    case Serve(c) =>
      && 0 <= c < |t| && Waits(z, c) && IsGet(z.pend[c])
      && (c > 0 ==> z.pend[t[c]] == Idle && ParentHits(z.sys.lines[t[c]], z.pend[c].ty))
    case EvictStart(n) =>
      0 <= n < |t| && z.pend[n] == Idle
    case PutStep(c) =>
      && 0 <= c < |t| && Waits(z, c) && IsPut(z.pend[c])
      && (c > 0 ==> z.pend[t[c]] == Idle)
  }

  /** The race filter runs whenever a cache takes up a request; memory has none. */
  predicate MeetsFilter(t: Tree, z: Conc, a: Step)
    requires WellSized(t, z) && Enabled(t, z, a)
  {
    (a.Climb? || a.Serve? || a.PutStep?) && a.c > 0
  }

  function Filter(t: Tree, z: Conc, c: int): RaceOutcome
    requires WellSized(t, z) && 0 <= c < |t| && z.pend[c].Req?
  {
    CheckForMESIRace(z.pend[c].ty, z.sys.lines[c].st, z.pend[c].init)
  }

  function Next(t: Tree, z: Conc, a: Step): (z': Conc)
    requires WellSized(t, z) && Enabled(t, z, a)
    ensures WellSized(t, z')
  {
    match a
    case CoreGet(n, ty, noExcl) =>
      z.(pend := z.pend[n := Req(ty, z.sys.lines[n].st, noExcl, false)], serving := z.serving[n := -1])
    case StoreHit(n) =>
      z.(sys := Write(z.sys.(lines := z.sys.lines[n := z.sys.lines[n].(st := M)]), n))
    case Climb(c) =>
      var p := t[c];
      z.(pend := z.pend[p := Req(z.pend[c].ty, z.sys.lines[p].st, z.pend[c].noExcl, false)]
                       [c := z.pend[c].(started := true)],
         serving := z.serving[p := c])
    case Serve(c) =>
      Unwind(t, Answered(t, z, c), c)
    case EvictStart(n) =>
      var s' := Vacate(t, z.sys.lines, n);
      var r := if s'[n].st == I then Idle else Req(if s'[n].st == M then PUTX else PUTS, s'[n].st, false, false);
      z.(sys := z.sys.(lines := s'), pend := z.pend[n := r], serving := z.serving[n := -1])
    case PutStep(c) =>
      var out := if c == 0 then Proceed(z.pend[c].ty) else Filter(t, z, c);
      z.(sys := if out.Proceed? then TakePut(t, z.sys, c, out.ty) else z.sys, pend := z.pend[c := Idle])
  }

  /** Memory or the parent of c answers a GET it can satisfy at once. */
  function Answer(t: Tree, y: System, c: int, ty: AccessType, noExcl: bool): (y': System)
    requires |y.lines| == |t| && 0 <= c < |t|
    ensures |y'.lines| == |t|
  {
    if c == 0 then y.(lines := y.lines[0 := MemGive(y.lines[0], y.mem, ty, noExcl)])
    else
      var y1 := Fetch(t, y, t[c], ty, noExcl);
      y1.(lines := Grant(t, y1.lines, t[c], c, ty, noExcl))
  }

  /** The answer to c's GET, before c passes it on. */
  function Answered(t: Tree, z: Conc, c: int): (z': Conc)
    requires WellSized(t, z) && 0 <= c < |t| && z.pend[c].Req?
    ensures WellSized(t, z')
  {
    z.(sys := Answer(t, z.sys, c, z.pend[c].ty, z.pend[c].noExcl))
  }

  /** c has its line: it serves the child it asked for, and so on down the chain. A core's store is done
      as soon as its terminal cache has the line.
   */
  function Unwind(t: Tree, z: Conc, c: int): (z': Conc)
    requires WellSized(t, z) && 0 <= c < |t|
    ensures WellSized(t, z')
    decreases |t| - c
  {
    var d := z.serving[c];
    if c < d < |t| && z.pend[d].Req? then
      var l := Grant(t, z.sys.lines, c, d, z.pend[d].ty, z.pend[d].noExcl);
      Unwind(t, Conc(z.sys.(lines := l), z.pend[c := Idle], z.serving[c := -1]), d)
    else
      z.(sys := if z.pend[c].Req? && z.pend[c].ty == GETX then Write(z.sys, c) else z.sys, pend := z.pend[c := Idle])
  }

  /** Memory or the parent of c carries out a PUT. */
  function TakePut(t: Tree, y: System, c: int, ty: AccessType): (y': System)
    requires |y.lines| == |t| && 0 <= c < |t|
    ensures |y'.lines| == |t|
  {
    if c == 0 then
      y.(lines := y.lines[0 := y.lines[0].(st := I)], mem := if ty == PUTX then y.lines[0].ver else y.mem)
    else
      y.(lines := Put(y.lines, t[c], c, ty))
  }

  // ---------------------------------------------------------------- invariant

  /** The state of a request's sender is still one the race filter expects. */
  ghost predicate PendOk(z: Conc, k: int)
    requires |z.sys.lines| == |z.pend| && 0 <= k < |z.pend|
  {
    var r := z.pend[k];
    r.Req? ==>
      && Reachable(r.ty, r.init, z.sys.lines[k].st)
      && (IsPut(r) ==> z.sys.lines[k].sharers == {} && !r.started)
  }

  /** Chains of waiting caches: a started GET waits for its parent's own request, which is for it. */
  ghost predicate ChainOk(t: Tree, z: Conc, k: int)
    requires WellSized(t, z) && 0 <= k < |t|
  {
    var r := z.pend[k];
    && (r.Req? && r.started ==> 0 < k && IsGet(z.pend[t[k]]) && z.serving[t[k]] == k)
    && (IsGet(r) ==>
          if z.serving[k] == -1 then Terminal(t, k) else
            var c := z.serving[k];
            && k < c < |t| && t[c] == k && IsGet(z.pend[c]) && z.pend[c].started
            && z.pend[c].ty == r.ty && z.pend[c].noExcl == r.noExcl)
  }

  ghost predicate ConcInv(t: Tree, z: Conc) {
    && WellSized(t, z)
    && Inv(t, z.sys)
    && (forall k {:trigger PendOk(z, k)} | 0 <= k < |t| :: PendOk(z, k))
    && (forall k {:trigger ChainOk(t, z, k)} | 0 <= k < |t| :: ChainOk(t, z, k))
    && (z.pend[0].Req? ==> z.sys.lines[0].st == z.pend[0].init)
  }
}
