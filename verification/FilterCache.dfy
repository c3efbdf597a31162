/** The filter in front of a terminal L1 cache: per L1 set one address that loads, and one that stores, may
    take without asking the L1. The filter is indexed like the L1, whose array is set-associative and
    unhashed, so an eviction always happens in the set whose filter entry is about to be overwritten.
 */
module FilterCache {
  import opened Coherence

  /** A physical line: the process mask and the virtual line address that it is or-ed onto. */
  datatype PLine = PLine(proc: int, addr: int)

  /** Addresses 0 and -1 mark empty filter entries. */
  predicate IsAddr(a: int) {
    a != 0 && a != -1
  }

  // ---------------------------------------------------------------- one set

  /** The lines of an L1 set and its filter entry. */
  datatype CacheSet = CacheSet(tags: seq<PLine>, st: seq<MESIState>, rd: int, wr: int) {
    /** The set holds the line in a state other than I; in M, if owned is asked for. */
    ghost predicate Has(line: PLine, owned: bool)
      requires |tags| == |st|
    {
      exists w {:trigger tags[w]} | 0 <= w < |tags| :: tags[w] == line && st[w] != I && (owned ==> st[w] == M)
    }

    /** No line sits in two ways; tags start out as 0. */
    ghost predicate Unique() {
      forall i, j | 0 <= i < j < |tags| :: tags[i] == tags[j] ==> tags[i].addr == 0
    }

    /** What the filter promises to the core of process proc. */
    ghost predicate Agrees(proc: int)
      requires |tags| == |st|
    {
      && (IsAddr(rd) ==> Has(PLine(proc, rd), false))
      && (IsAddr(wr) ==> wr == rd && Has(PLine(proc, wr), true))
    }

    ghost predicate Shape(index: int, numSets: int, ways: int) {
      && |tags| == |st| == ways && Unique() && numSets > 0
      && (IsAddr(rd) ==> rd % numSets == index)
    }
  }

  /** Way w holds the line, valid or not. */
  predicate Placed(c: CacheSet, w: int, line: PLine) {
    |c.tags| == |c.st| && 0 <= w < |c.tags| && c.tags[w] == line
  }

  /** The line leaves way w for another; the new line is not valid yet. */
  lemma InsertKeeps(c: CacheSet, w: int, line: PLine)
    requires |c.tags| == |c.st| && c.Unique() && 0 <= w < |c.tags| && line !in c.tags
    ensures c.(tags := c.tags[w := line], st := c.st[w := I]).Unique()
  {
  }

  /** An invalidation or downgrade at way w. */
  function Lowered(c: CacheSet, w: int, ty: InvType): CacheSet
    requires 0 <= w < |c.st|
  {
    c.(st := c.st[w := if ty == INVX then S else I])
  }

  /** A line loses its rights at the L1 exactly if the invalidation names it and takes those rights. */
  lemma LoweredHas(c: CacheSet, w: int, ty: InvType, line: PLine, owned: bool)
    requires |c.tags| == |c.st| && c.Unique() && 0 <= w < |c.tags| && c.st[w] != I
    requires c.Has(line, owned) && line.addr != 0
    ensures Lowered(c, w, ty).Has(line, owned) <==> c.tags[w] != line || (ty == INVX && !owned)
  {
    var v :| 0 <= v < |c.tags| && c.tags[v] == line && c.st[v] != I && (owned ==> c.st[v] == M);
    var c' := Lowered(c, w, ty);
    assert c'.tags[v] == line;
    if c.tags[w] == line {
      forall u | 0 <= u < |c.tags| && c.tags[u] == line ensures u == w {
        OneWay(c, u, w);
      }
    } else {
      assert c'.st[v] == c.st[v];
    }
  }

  lemma OneWay(c: CacheSet, i: int, j: int)
    requires c.Unique() && 0 <= i < |c.tags| && 0 <= j < |c.tags| && c.tags[i] == c.tags[j] && c.tags[i].addr != 0
    ensures i == j
  {
  }

  /** The filter entry after an invalidation seen by a thread of process caller. */
  function Unfiltered(c: CacheSet, line: PLine, caller: int): CacheSet {
    if PLine(caller, c.rd) == line then c.(rd := -1, wr := -1) else c
  }

  /** An invalidation keeps the filter right exactly when it is seen by a thread of the filter's own process,
      or takes nothing that the filter promises. */
  lemma InvalidateAgrees(c: CacheSet, proc: int, w: int, ty: InvType, caller: int)
    requires |c.tags| == |c.st| && c.Unique() && 0 <= w < |c.tags| && c.st[w] != I && IsAddr(c.tags[w].addr)
    requires c.Agrees(proc)
    ensures Lowered(Unfiltered(c, c.tags[w], caller), w, ty).Agrees(proc)
      <==> caller == proc || PLine(proc, if ty == INV then c.rd else c.wr) != c.tags[w]
  {
    var line := c.tags[w];
    var c1 := Unfiltered(c, line, caller);
    var c' := Lowered(c1, w, ty);
    if IsAddr(c1.rd) {
      assert c1.Has(PLine(proc, c1.rd), false) by {
        assert c.Has(PLine(proc, c.rd), false);
        var v :| 0 <= v < |c.tags| && c.tags[v] == PLine(proc, c.rd) && c.st[v] != I;
        assert c1.tags[v] == PLine(proc, c.rd);
      }
      LoweredHas(c1, w, ty, PLine(proc, c1.rd), false);
    }
    if IsAddr(c1.wr) {
      assert c1.Has(PLine(proc, c1.wr), true) by {
        var v :| 0 <= v < |c.tags| && c.tags[v] == PLine(proc, c.wr) && c.st[v] == M;
        assert c1.tags[v] == PLine(proc, c.wr);
      }
      LoweredHas(c1, w, ty, PLine(proc, c1.wr), true);
    }
  }

  /** The set after an invalidation keeps its shape, and no longer holds what was taken. */
  lemma InvalidateTakes(c: CacheSet, w: int, ty: InvType, caller: int, index: int, numSets: int, ways: int)
    requires c.Shape(index, numSets, ways) && 0 <= w < ways && c.st[w] != I && c.tags[w].addr != 0
    ensures var c' := Lowered(Unfiltered(c, c.tags[w], caller), w, ty);
            c'.Shape(index, numSets, ways) && !c'.Has(c.tags[w], true) && (ty == INV ==> !c'.Has(c.tags[w], false))
  {
    var line := c.tags[w];
    forall u | 0 <= u < ways && c.tags[u] == line ensures u == w {
      OneWay(c, u, w);
    }
  }

  // ---------------------------------------------------------------- one access

  /** The L1 after the line of way w has been fetched or upgraded as the access needs: a load that finds it
      invalid gets it in E or S, a store ends in M. */
  function Granted(st: MESIState, isLoad: bool, exclusive: bool): (r: MESIState)
    ensures r != I && (!isLoad ==> r == M) && (isLoad && st != I ==> r == st)
  {
    if !isLoad then M else if st != I then st else if exclusive then E else S
  }

  /** The set after the access: the line's state, and the filter entry overwritten with its address. */
  function Replaced(c: CacheSet, w: int, addr: int, isLoad: bool, exclusive: bool): CacheSet
    requires 0 <= w < |c.st|
  {
    CacheSet(c.tags, c.st[w := Granted(c.st[w], isLoad, exclusive)], addr, if isLoad then -1 else addr)
  }

  /** Whatever was evicted meanwhile from the set, the new entry promises what the L1 now holds. */
  lemma ReplacedAgrees(c: CacheSet, w: int, proc: int, addr: int, isLoad: bool, exclusive: bool)
    requires |c.tags| == |c.st| && 0 <= w < |c.tags| && c.tags[w] == PLine(proc, addr)
    ensures Replaced(c, w, addr, isLoad, exclusive).Agrees(proc)
  {
    var c' := Replaced(c, w, addr, isLoad, exclusive);
    assert c'.tags[w] == PLine(proc, addr);
  }

  /** The set with way w given to the line, not valid yet. */
  function Inserted(c: CacheSet, w: int, line: PLine): CacheSet
    requires 0 <= w < |c.st| == |c.tags|
  {
    c.(tags := c.tags[w := line], st := c.st[w := I])
  }

  // ---------------------------------------------------------------- what the filter remembers

  /** What can change the filter: an access that went to the L1 ends, a line is invalidated or downgraded by a thread
      of some process, or another thread is scheduled. */
  datatype Event = Ended(addr: int, isLoad: bool) | Lost(line: PLine, caller: int) | Switched

  /** The event decides whether the address is filtered from then on, unless later ones do. */
  ghost predicate Decides(e: Event, numSets: int, addr: int)
    requires numSets > 0
  {
    match e
    case Ended(a, _) => a % numSets == addr % numSets
    case Lost(line, caller) => line == PLine(caller, addr)
    case Switched => true
  }

  /** The last of the events that decides is an access to the address; a store, if asked for. */
  ghost predicate Remembered(log: seq<Event>, numSets: int, addr: int, stored: bool)
    requires numSets > 0
  {
    exists i :: LastAt(log, i, numSets, addr, stored)
  }

  ghost predicate LastAt(log: seq<Event>, i: int, numSets: int, addr: int, stored: bool)
    requires numSets > 0
  {
    && 0 <= i < |log| && log[i].Ended? && log[i].addr == addr && (stored ==> !log[i].isLoad)
    && forall k | i < k < |log| :: !Decides(log[k], numSets, addr)
  }

  lemma RememberedNext(log: seq<Event>, e: Event, numSets: int, addr: int, stored: bool)
    requires numSets > 0
    ensures Remembered(log + [e], numSets, addr, stored)
      <==> if Decides(e, numSets, addr) then e.Ended? && e.addr == addr && (stored ==> !e.isLoad)
           else Remembered(log, numSets, addr, stored)
  {
    var all, n := log + [e], |log|;
    assert LastAt(all, n, numSets, addr, stored) <==> e.Ended? && e.addr == addr && (stored ==> !e.isLoad);
    forall i | 0 <= i < n
      ensures LastAt(all, i, numSets, addr, stored)
        <==> !Decides(e, numSets, addr) && LastAt(log, i, numSets, addr, stored)
    {
      AtNext(log, e, i, numSets, addr, stored);
    }
  }

  lemma AtNext(log: seq<Event>, e: Event, i: int, numSets: int, addr: int, stored: bool)
    requires numSets > 0 && 0 <= i < |log|
    ensures LastAt(log + [e], i, numSets, addr, stored)
      <==> !Decides(e, numSets, addr) && LastAt(log, i, numSets, addr, stored)
  {
    var all := log + [e];
    assert all[|log|] == e && forall k | 0 <= k < |log| :: all[k] == log[k];
  }

  /** The entries hold just the addresses that are remembered. */
  ghost predicate Remembers(sets: seq<CacheSet>, numSets: int, log: seq<Event>)
    requires numSets > 0 && |sets| == numSets
  {
    forall a | IsAddr(a) :: Entry(sets[a % numSets], a, numSets, log)
  }

  ghost predicate Entry(c: CacheSet, addr: int, numSets: int, log: seq<Event>)
    requires numSets > 0
  {
    && (c.rd == addr <==> Remembered(log, numSets, addr, false))
    && (c.wr == addr <==> Remembered(log, numSets, addr, true))
  }

  lemma EntryNext(c: CacheSet, c': CacheSet, addr: int, numSets: int, log: seq<Event>, e: Event)
    requires numSets > 0 && IsAddr(addr) && Entry(c, addr, numSets, log)
    requires if Decides(e, numSets, addr) then
               && (c'.rd == addr <==> e.Ended? && e.addr == addr)
               && (c'.wr == addr <==> e.Ended? && e.addr == addr && !e.isLoad)
             else (c'.rd == addr <==> c.rd == addr) && (c'.wr == addr <==> c.wr == addr)
    ensures Entry(c', addr, numSets, log + [e])
  {
    RememberedNext(log, e, numSets, addr, false);
    RememberedNext(log, e, numSets, addr, true);
  }

  lemma EndRemembers(sets: seq<CacheSet>, numSets: int, log: seq<Event>, c: CacheSet, addr: int, isLoad: bool)
    requires numSets > 0 && |sets| == numSets && Remembers(sets, numSets, log) && IsAddr(addr)
    requires c.rd == addr && c.wr == if isLoad then -1 else addr
    ensures Remembers(sets[addr % numSets := c], numSets, log + [Ended(addr, isLoad)])
  {
    forall a | IsAddr(a)
      ensures Entry(sets[addr % numSets := c][a % numSets], a, numSets, log + [Ended(addr, isLoad)])
    {
      EntryNext(sets[a % numSets], sets[addr % numSets := c][a % numSets], a, numSets, log, Ended(addr, isLoad));
    }
  }

  lemma LossRemembers(sets: seq<CacheSet>, numSets: int, log: seq<Event>, c: CacheSet, line: PLine, caller: int)
    requires numSets > 0 && |sets| == numSets && Remembers(sets, numSets, log)
    requires var d := sets[line.addr % numSets];
             if PLine(caller, d.rd) == line then c.rd == -1 && c.wr == -1 else c.rd == d.rd && c.wr == d.wr
    ensures Remembers(sets[line.addr % numSets := c], numSets, log + [Lost(line, caller)])
  {
    forall a | IsAddr(a)
      ensures Entry(sets[line.addr % numSets := c][a % numSets], a, numSets, log + [Lost(line, caller)])
    {
      assert Entry(sets[a % numSets], a, numSets, log);
      StoresAreLoads(sets[a % numSets], a, numSets, log);
      EntryNext(sets[a % numSets], sets[line.addr % numSets := c][a % numSets], a, numSets, log, Lost(line, caller));
    }
  }

  lemma StoresAreLoads(c: CacheSet, addr: int, numSets: int, log: seq<Event>)
    requires numSets > 0 && Entry(c, addr, numSets, log)
    ensures c.wr == addr ==> c.rd == addr
  {
    if c.wr == addr {
      var i :| LastAt(log, i, numSets, addr, true);
      assert LastAt(log, i, numSets, addr, false);
    }
  }

  lemma SwitchRemembers(sets: seq<CacheSet>, sets': seq<CacheSet>, numSets: int, log: seq<Event>)
    requires numSets > 0 && |sets| == |sets'| == numSets && Remembers(sets, numSets, log)
    requires forall s | 0 <= s < numSets :: sets'[s].rd == 0 && sets'[s].wr == 0
    ensures Remembers(sets', numSets, log + [Switched])
  {
    forall a | IsAddr(a) ensures Entry(sets'[a % numSets], a, numSets, log + [Switched]) {
      EntryNext(sets[a % numSets], sets'[a % numSets], a, numSets, log, Switched);
    }
  }

  // ---------------------------------------------------------------- the cache

  /** The access that the core has under way. */
  datatype Miss = Idle | Busy(addr: int, isLoad: bool, way: int)

  ghost predicate AllShaped(sets: seq<CacheSet>, numSets: int, ways: int) {
    forall s | 0 <= s < |sets| :: sets[s].Shape(s, numSets, ways)
  }

  ghost predicate AllAgree(sets: seq<CacheSet>, proc: int, missing: int)
    requires forall s | 0 <= s < |sets| :: |sets[s].tags| == |sets[s].st|
  {
    forall s | 0 <= s < |sets| && s != missing :: sets[s].Agrees(proc)
  }

  lemma UpdateShaped(sets: seq<CacheSet>, numSets: int, ways: int, s: int, c: CacheSet)
    requires AllShaped(sets, numSets, ways) && 0 <= s < |sets| && c.Shape(s, numSets, ways)
    ensures AllShaped(sets[s := c], numSets, ways)
  {
  }

  lemma UpdateAgrees(sets: seq<CacheSet>, proc: int, missing: int, s: int, c: CacheSet)
    requires forall i | 0 <= i < |sets| :: |sets[i].tags| == |sets[i].st|
    requires AllAgree(sets, proc, missing) && 0 <= s < |sets| && |c.tags| == |c.st|
    ensures AllAgree(sets[s := c], proc, missing) <==> s == missing || c.Agrees(proc)
  {
    assert sets[s := c][s] == c;
  }

  class FilterCache {
    const numSets: int
    const ways: int
    /** The process whose thread the core runs. */
    var proc: int
    /** L1 lines and filter entry, by index. */
    var sets: seq<CacheSet>
    var miss: Miss
    /** Everything since the start that can change the filter. */
    ghost var log: seq<Event>

    ghost predicate Shape()
      reads this
    {
      && numSets > 0 && ways > 0 && |sets| == numSets
      && AllShaped(sets, numSets, ways) && Remembers(sets, numSets, log)
      && (miss.Busy? ==> IsAddr(miss.addr) && Placed(sets[miss.addr % numSets], miss.way, PLine(proc, miss.addr)))
    }

    /** Every entry promises only what the L1 holds, but for the one that a miss under way will overwrite. */
    ghost predicate Valid()
      reads this
    {
      Shape() && AllAgree(sets, proc, Missing())
    }

    /** The index of the miss under way, or -1. */
    ghost function Missing(): int
      requires Shape()
      reads this
    {
      if miss.Busy? then miss.addr % numSets else -1
    }

    constructor (numSets_: int, ways_: int, proc_: int)
      requires numSets_ > 0 && ways_ > 0
      ensures Valid() && miss.Idle? && numSets == numSets_ && ways == ways_ && proc == proc_ && log == []
    {
      numSets, ways, proc, miss := numSets_, ways_, proc_, Idle;
      sets := seq(numSets_, _ => CacheSet(seq(ways_, _ => PLine(0, 0)), seq(ways_, _ => I), 0, 0));
      log := [];
    }

    /** A load that the filter takes; otherwise the L1 is asked. */
    method Load(addr: int) returns (filtered: bool)
      requires Valid() && miss.Idle? && IsAddr(addr)
      ensures filtered ==> sets[addr % numSets].Has(PLine(proc, addr), false)
      ensures filtered <==> Remembered(log, numSets, addr, false)
    {
      assert Entry(sets[addr % numSets], addr, numSets, log);
      var c := sets[addr % numSets];
      filtered := c.rd == addr;
    }

    method Store(addr: int) returns (filtered: bool)
      requires Valid() && miss.Idle? && IsAddr(addr)
      ensures filtered ==> sets[addr % numSets].Has(PLine(proc, addr), true)
      ensures filtered <==> Remembered(log, numSets, addr, true)
    {
      assert Entry(sets[addr % numSets], addr, numSets, log);
      var c := sets[addr % numSets];
      filtered := c.wr == addr;
    }

    method Lookup(line: PLine) returns (way: int)
      requires Shape()
      ensures -1 <= way < ways == |sets[line.addr % numSets].tags|
      ensures way >= 0 ==> sets[line.addr % numSets].tags[way] == line
      ensures way == -1 ==> line !in sets[line.addr % numSets].tags
    {
      var c := sets[line.addr % numSets];
      for w := 0 to ways
        invariant forall i | 0 <= i < w :: c.tags[i] != line
      {
        if c.tags[w] == line {
          return w;
        }
      }
      return -1;
    }

    /** The first part of replace: looks the line up, and if it is absent evicts the line of way victim, which
        the replacement policy picks, and puts the new tag there. The locks are free until the parent answers,
        and invalidations may come in. */
    method BeginAccess(addr: int, isLoad: bool, victim: int)
      requires Valid() && miss.Idle? && IsAddr(addr) && 0 <= victim < ways
      modifies this`sets, this`miss
      ensures Valid() && miss.Busy? && miss.addr == addr && miss.isLoad == isLoad
      ensures sets == if PLine(proc, addr) in old(sets[addr % numSets].tags) then old(sets)
                      else old(sets)[addr % numSets := Inserted(old(sets[addr % numSets]), victim, PLine(proc, addr))]
    {
      var idx := addr % numSets;
      var line := PLine(proc, addr);
      var way := Lookup(line);
      if way == -1 {
        way := victim;
        InsertKeeps(sets[idx], way, line);
        var c := Inserted(sets[idx], way, line);
        assert forall a :: Entry(sets[idx], a, numSets, log) ==> Entry(c, a, numSets, log);
        sets := sets[idx := c];
      }
      miss := Busy(addr, isLoad, way);
    }

    /** The second part: the line's state after the answer, and the new filter entry. */
    method EndAccess(exclusive: bool)
      requires Valid() && miss.Busy?
      modifies this`sets, this`miss, this`log
      ensures Valid() && miss.Idle? && log == old(log + [Ended(miss.addr, miss.isLoad)])
      ensures sets[old(miss.addr) % numSets].Has(PLine(proc, old(miss.addr)), !old(miss.isLoad))
      ensures Placed(old(sets[miss.addr % numSets]), old(miss.way), PLine(proc, old(miss.addr)))
      ensures sets == old(sets[miss.addr % numSets :=
        Replaced(sets[miss.addr % numSets], miss.way, miss.addr, miss.isLoad, exclusive)])
    {
      var idx := miss.addr % numSets;
      var c := sets[idx];
      ReplacedAgrees(c, miss.way, proc, miss.addr, miss.isLoad, exclusive);
      var st := c.st[miss.way := Granted(c.st[miss.way], miss.isLoad, exclusive)];
      var c' := CacheSet(c.tags, st, miss.addr, if miss.isLoad then -1 else miss.addr);
      EndRemembers(sets, numSets, log, c', miss.addr, miss.isLoad);
      log := log + [Ended(miss.addr, miss.isLoad)];
      sets := sets[idx := c'];
      miss := Idle;
    }

    /** The invalidation is run by the filter's own process, or takes nothing that a live entry promises. */
    ghost predicate Harmless(line: PLine, ty: InvType, caller: int)
      requires Shape()
      reads this
    {
      var c := sets[line.addr % numSets];
      || caller == proc
      || line.addr % numSets == Missing()
      || PLine(proc, if ty == INV then c.rd else c.wr) != line
    }

    /** An invalidation from the parent, run by a thread of process caller. The parent only sends it to a cache
        that holds the line, so the lookup finds it in a valid state, exclusive for a downgrade. */
    method Invalidate(line: PLine, ty: InvType, caller: int)
      requires Valid() && IsAddr(line.addr)
      requires sets[line.addr % numSets].Has(line, false)
      modifies this`sets, this`log
      ensures Shape() && miss == old(miss) && log == old(log) + [Lost(line, caller)]
      ensures exists w | Placed(old(sets[line.addr % numSets]), w, line) ::
                sets == old(sets)[line.addr % numSets :=
                  Lowered(Unfiltered(old(sets[line.addr % numSets]), line, caller), w, ty)]
      ensures Valid() <==> old(Harmless(line, ty, caller))
      ensures !sets[line.addr % numSets].Has(line, true) && (ty == INV ==> !sets[line.addr % numSets].Has(line, false))
    {
      var idx := line.addr % numSets;
      ghost var before := sets[idx];
      var c := sets[idx];
      if PLine(caller, c.rd) == line {
        c := c.(rd := -1, wr := -1);
      }
      var way := Lookup(line);
      Held(before, line, way);
      InvalidateTakes(before, way, ty, caller, idx, numSets, ways);
      if idx != Missing() {
        InvalidateAgrees(before, proc, way, ty, caller);
      }
      c := Lowered(c, way, ty);
      UpdateShaped(sets, numSets, ways, idx, c);
      UpdateAgrees(sets, proc, Missing(), idx, c);
      LossRemembers(sets, numSets, log, c, line, caller);
      log := log + [Lost(line, caller)];
      sets := sets[idx := c];
      assert Placed(before, way, line);
    }

    /** Another thread is scheduled on the core: the filter is emptied. */
    method ContextSwitch(newProc: int)
      requires Valid() && miss.Idle?
      modifies this`sets, this`proc, this`log
      ensures Valid() && proc == newProc && log == old(log) + [Switched]
      ensures forall s | 0 <= s < numSets :: sets[s] == old(sets)[s].(rd := 0, wr := 0)
    {
      ghost var before := sets;
      for i := 0 to numSets
        invariant |sets| == numSets == |before| && Remembers(before, numSets, log) && before == old(sets)
        invariant log == old(log)
        invariant forall s | 0 <= s < numSets ::
          sets[s] == if s < i then old(sets)[s].(rd := 0, wr := 0) else old(sets)[s]
      {
        sets := sets[i := sets[i].(rd := 0, wr := 0)];
      }
      SwitchRemembers(before, sets, numSets, log);
      log := log + [Switched];
      proc := newProc;
    }
  }

  /** The way that holds a valid line is the one the lookup finds. */
  lemma Held(c: CacheSet, line: PLine, way: int)
    requires |c.tags| == |c.st| && c.Unique() && c.Has(line, false) && line.addr != 0
    requires -1 <= way < |c.tags| && (way >= 0 ==> c.tags[way] == line) && (way == -1 ==> line !in c.tags)
    ensures way >= 0 && c.st[way] != I
  {
    var w :| 0 <= w < |c.tags| && c.tags[w] == line && c.st[w] != I;
    if way >= 0 {
      OneWay(c, w, way);
    }
  }

  /** The broken promise can come about: after one store, an invalidation of the stored line, run by a thread of
      another process, leaves a filter that still takes stores to the line the L1 has lost.
   */
  method StoreThenForeignInvalidate(numSets: int, ways: int, proc: int, addr: int, caller: int)
    returns (cache: FilterCache)
    requires numSets > 0 && ways > 0 && IsAddr(addr) && caller != proc
    ensures cache.Shape() && !cache.Valid() && cache.miss.Idle? && cache.numSets == numSets && cache.proc == proc
    ensures cache.sets[addr % numSets].wr == addr && !cache.sets[addr % numSets].Has(PLine(proc, addr), false)
  {
    cache := new FilterCache(numSets, ways, proc);
    cache.BeginAccess(addr, false, 0);
    cache.EndAccess(true);
    StoredHas(cache.sets[addr % numSets], PLine(proc, addr), addr);
    cache.Invalidate(PLine(proc, addr), INV, caller);
  }

  lemma StoredHas(c: CacheSet, line: PLine, addr: int)
    requires |c.tags| == |c.st| && c.Agrees(line.proc) && c.wr == addr == line.addr && IsAddr(addr)
    ensures c.Has(line, false)
  {
    var w :| 0 <= w < |c.tags| && c.tags[w] == line && c.st[w] == M;
    assert c.tags[w] == line;
  }
}
