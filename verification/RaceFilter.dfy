/** The race filter: what becomes of a request whose sender was hit by invalidations on its way. */
module RaceFilter {
  import opened Coherence

  datatype RaceOutcome = Proceed(ty: AccessType) | SkipAccess | Panic

  /** The race filter; Panic stands for its panic and for its failing asserts. */
  function CheckForMESIRace(ty: AccessType, now: MESIState, init: MESIState): RaceOutcome {
    if now == init then Proceed(ty)
    else if ty == PUTS || ty == PUTX then
      if now == I then SkipAccess
      else if now == S then Proceed(PUTS)
      else Panic
    else if ty == GETX then
      if init == S && now == I then Proceed(GETX) else Panic
    else Panic
  }

  // ---------------------------------------------------------------- the filter against any run of invalidations

  /** A request as the bottom controller issues it. */
  predicate Legal(ty: AccessType, init: MESIState) {
    match ty
    case GETS => init == I
    case GETX => init == I || init == S
    case PUTS => init == S || init == E
    case PUTX => init == M
  }

  /** The child's state after invalidations from above, or nothing if one of them was not a legal one. */
  function AfterInvs(st: MESIState, invs: seq<InvType>): (r: seq<MESIState>)
    ensures |r| <= 1
    decreases |invs|
  {
    if invs == [] then [st]
    else if st == I || (invs[0] == INVX && !Own(st)) then []
    else AfterInvs(if invs[0] == INVX then S else I, invs[1..])
  }

  /** Where legal invalidations can take a request's sender. */
  predicate Reachable(ty: AccessType, init: MESIState, now: MESIState) {
    Legal(ty, init) && (now == init || (init != I && now == I) || (Own(init) && now == S))
  }

  lemma {:induction false} InvsReach(st: MESIState, invs: seq<InvType>)
    ensures AfterInvs(st, invs) != [] ==>
      var now := AfterInvs(st, invs)[0];
      now == st || (st != I && now == I) || (Own(st) && now == S)
    decreases |invs|
  {
    if invs != [] && st != I && !(invs[0] == INVX && !Own(st)) {
      InvsReach(if invs[0] == INVX then S else I, invs[1..]);
    }
  }

  /** However many invalidations hit the sender of a legal request first, the filter does not panic: it
      skips exactly the PUTs whose line is gone, and what it lets through is a request that is legal for
      the state the sender is in now.
   */
  lemma RaceFilterComplete(ty: AccessType, init: MESIState, invs: seq<InvType>)
    requires Legal(ty, init) && AfterInvs(init, invs) != []
    ensures var now := AfterInvs(init, invs)[0];
      match CheckForMESIRace(ty, now, init)
      case Panic => false
      case SkipAccess => (ty == PUTS || ty == PUTX) && now == I
      case Proceed(ty') => Legal(ty', now) && (ty' == ty || (ty == PUTX && ty' == PUTS))
  {
    InvsReach(init, invs);
  }
}
