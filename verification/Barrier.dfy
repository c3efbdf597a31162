/** The barrier that runs threads in phases: threads join and leave at any time, at most parallelThreads run
    at once, and a phase ends when every participating thread has run. Each operation holds the scheduler
    lock throughout, so it is one step; a thread that sleeps does so as a WAITING entry.
 */
module Barrier {

  datatype ThreadState = OFFLINE | WAITING | RUNNING | LEFT

  /** How many threads are in one state. */
  function Count(state: seq<ThreadState>, s: ThreadState): nat {
    if state == [] then 0 else (if state[|state| - 1] == s then 1 else 0) + Count(state[..|state| - 1], s)
  }

  lemma {:induction false} CountZero(state: seq<ThreadState>, s: ThreadState)
    ensures Count(state, s) == 0 <==> forall t | 0 <= t < |state| :: state[t] != s
  {
    if state != [] {
      CountZero(state[..|state| - 1], s);
    }
  }

  lemma {:induction false} CountChange(state: seq<ThreadState>, t: int, s: ThreadState, r: ThreadState)
    requires 0 <= t < |state|
    ensures Count(state[t := s], r) == Count(state, r) + (if r == s then 1 else 0) - (if r == state[t] then 1 else 0)
  {
    var n := |state| - 1;
    if t < n {
      CountChange(state[..n], t, s, r);
      assert state[t := s][..n] == state[..n][t := s];
    } else {
      assert state[t := s][..n] == state[..n];
    }
  }

  /** The counts of running and left threads after one thread changes state. */
  lemma CountsAfterChange(state: seq<ThreadState>, t: int, s: ThreadState)
    requires 0 <= t < |state|
    ensures Count(state[t := s], RUNNING)
      == Count(state, RUNNING) + (if RUNNING == s then 1 else 0) - (if RUNNING == state[t] then 1 else 0)
    ensures Count(state[t := s], LEFT)
      == Count(state, LEFT) + (if LEFT == s then 1 else 0) - (if LEFT == state[t] then 1 else 0)
  {
    CountChange(state, t, s, RUNNING);
    CountChange(state, t, s, LEFT);
  }

  /** The barrier's tables: per thread its state and last index in the run list; the live part of the run
      list; the index of the next thread to consider. For the proof: each thread's place in the list, the length
      that the list had when the thread joined it, the threads that have been given an index since, those woken
      in this phase, and those that came back too late in it and were passed over.
   */
  datatype Table = Table(state: seq<ThreadState>, lastIdx: seq<int>, list: seq<int>, cur: int, pos: seq<int>,
                         joined: seq<int>, placed: set<int>, ran: set<int>, missed: set<int>) {
    ghost predicate ThreadOk(t: int)
      requires |state| == |lastIdx| == |pos| == |joined| && 0 <= t < |state|
    {
      && lastIdx[t] >= 0
      && (state[t] != OFFLINE ==> 0 <= pos[t] < |list| && list[pos[t]] == t)
      && (state[t] != OFFLINE && t !in placed ==> pos[t] == joined[t])
      && (state[t] == RUNNING ==> t in ran)
      && (t in ran ==> pos[t] < cur)
      && (t in ran ==> t in placed)
      && (t in placed ==> state[t] != OFFLINE && lastIdx[t] == pos[t])
      && (t in missed ==> state[t] != OFFLINE && pos[t] < cur && t !in ran)
    }

    /** Entry i is a thread of the list; if it waits and its turn has passed, it has run in this phase or missed it. */
    ghost predicate SlotOk(i: int)
      requires |state| == |pos| && 0 <= i < |list|
    {
      && 0 <= list[i] < |state| && state[list[i]] != OFFLINE && pos[list[i]] == i
      && (i < cur && state[list[i]] == WAITING ==> list[i] in ran || list[i] in missed)
    }

    ghost predicate Ok() {
      && |state| == |lastIdx| == |pos| == |joined| && 0 <= cur <= |list|
      && (forall t {:trigger ThreadOk(t)} | 0 <= t < |state| :: ThreadOk(t))
      && (forall i {:trigger SlotOk(i)} | 0 <= i < |list| :: SlotOk(i))
    }

    /** The thread at cur is woken. */
    function Wake(): Table
      requires 0 <= cur < |list| && 0 <= list[cur] < |state| == |lastIdx|
    {
      var t := list[cur];
      this.(state := state[t := RUNNING], lastIdx := lastIdx[t := cur], cur := cur + 1,
            placed := placed + {t}, ran := ran + {t})
    }
  }

  lemma WakeOk(b: Table)
    requires b.Ok() && b.cur < |b.list|
    ensures b.SlotOk(b.cur) && 0 <= b.list[b.cur] < |b.state|
    ensures b.state[b.list[b.cur]] == WAITING ==> b.Wake().Ok()
    ensures b.state[b.list[b.cur]] != WAITING ==> b.(cur := b.cur + 1).Ok()
  {
    assert b.SlotOk(b.cur);
    var b' := if b.state[b.list[b.cur]] == WAITING then b.Wake() else b.(cur := b.cur + 1);
    forall t | 0 <= t < |b.state| ensures b'.ThreadOk(t) {
      assert b.ThreadOk(t);
    }
    forall i | 0 <= i < |b.list| ensures b'.SlotOk(i) {
      assert b.SlotOk(i);
    }
  }

  lemma RewindOk(b: Table)
    requires b.Ok() && Count(b.state, RUNNING) == 0
    ensures b.(cur := 0, ran := {}, missed := {}).Ok()
  {
    CountZero(b.state, RUNNING);
    var b' := b.(cur := 0, ran := {}, missed := {});
    forall t | 0 <= t < |b.state| ensures b'.ThreadOk(t) {
      assert b.ThreadOk(t);
    }
    forall i | 0 <= i < |b.list| ensures b'.SlotOk(i) {
      assert b.SlotOk(i);
    }
  }

  /** Entries i and j trade places, and both threads learn their new index. */
  function SwapAt(b: Table, i: int, j: int): Table
    requires 0 <= i < |b.list| && 0 <= j < |b.list|
    requires 0 <= b.list[i] < |b.state| == |b.lastIdx| == |b.pos| && 0 <= b.list[j] < |b.state|
  {
    var x, y := b.list[i], b.list[j];
    b.(list := b.list[i := y][j := x], lastIdx := b.lastIdx[y := i][x := j], pos := b.pos[y := i][x := j],
       placed := b.placed + {x, y})
  }

  lemma SwapOk(b: Table, i: int, j: int)
    requires b.Ok() && 0 <= i < |b.list| && 0 <= j < |b.list|
    requires i < b.cur <==> j < b.cur
    ensures 0 <= b.list[i] < |b.state| && 0 <= b.list[j] < |b.state| && SwapAt(b, i, j).Ok()
  {
    assert b.SlotOk(i);
    assert b.SlotOk(j);
    var b' := SwapAt(b, i, j);
    forall t | 0 <= t < |b.state| ensures b'.ThreadOk(t) {
      assert b.ThreadOk(t);
    }
    forall k | 0 <= k < |b.list| ensures b'.SlotOk(k) {
      assert b.SlotOk(k);
    }
  }

  /** The thread of entry i goes offline; the last entry takes its place. */
  function RemoveAt(b: Table, i: int): Table
    requires 0 <= i < |b.list| && |b.state| == |b.lastIdx| == |b.pos|
    requires 0 <= b.list[i] < |b.state| && 0 <= b.list[|b.list| - 1] < |b.state|
  {
    var n := |b.list| - 1;
    var t, last := b.list[i], b.list[n];
    b.(state := b.state[t := OFFLINE], list := b.list[i := last][..n], lastIdx := b.lastIdx[last := i],
       pos := b.pos[last := i],
       placed := b.placed + {last} - {t}, ran := b.ran - {t})
  }

  lemma RemoveOk(b: Table, i: int)
    requires b.Ok() && b.cur == 0 && b.ran == {} && 0 <= i < |b.list|
    ensures 0 <= b.list[i] < |b.state| && 0 <= b.list[|b.list| - 1] < |b.state| && RemoveAt(b, i).Ok()
  {
    assert b.SlotOk(i);
    assert b.SlotOk(|b.list| - 1);
    var b' := RemoveAt(b, i);
    forall t | 0 <= t < |b.state| ensures b'.ThreadOk(t) {
      assert b.ThreadOk(t);
    }
    forall k | 0 <= k < |b'.list| ensures b'.SlotOk(k) {
      assert b.SlotOk(k);
    }
  }

  function Appended(b: Table, t: int): Table
    requires 0 <= t < |b.state| == |b.pos| == |b.joined|
  {
    var n := |b.list|;
    b.(state := b.state[t := WAITING], list := b.list + [t], pos := b.pos[t := n], joined := b.joined[t := n])
  }

  /** A new thread at the end of the list, waiting. */
  lemma AppendOk(b: Table, t: int)
    requires b.Ok() && 0 <= t < |b.state| && b.state[t] == OFFLINE
    ensures Appended(b, t).Ok()
  {
    var b' := Appended(b, t);
    assert b.ThreadOk(t);
    forall u | 0 <= u < |b.state| ensures b'.ThreadOk(u) {
      assert b.ThreadOk(u);
    }
    forall k | 0 <= k < |b'.list| ensures b'.SlotOk(k) {
      if k < |b.list| {
        assert b.SlotOk(k);
      }
    }
  }

  /** A thread leaves, or one that has run waits for the next phase. */
  lemma ChangeOk(b: Table, t: int, s: ThreadState)
    requires b.Ok() && 0 <= t < |b.state| && b.state[t] != OFFLINE
    requires s == LEFT || (s == WAITING && t in b.ran)
    ensures b.(state := b.state[t := s]).Ok()
  {
    var b' := b.(state := b.state[t := s]);
    assert b.ThreadOk(t);
    forall u | 0 <= u < |b.state| ensures b'.ThreadOk(u) {
      assert b.ThreadOk(u);
    }
    forall k | 0 <= k < |b.list| ensures b'.SlotOk(k) {
      assert b.SlotOk(k);
    }
  }

  /** Thread t waits again, with index c to be considered next; it misses its turn if its place is before c. */
  function Returned(b: Table, t: int, c: int): Table
    requires 0 <= t < |b.state| == |b.pos|
  {
    b.(state := b.state[t := WAITING], cur := c, ran := b.ran - {t},
       missed := if b.pos[t] < c then b.missed + {t} else b.missed - {t})
  }

  lemma ReturnedOk(b: Table, t: int, c: int)
    requires b.Ok() && 0 <= t < |b.state| && b.state[t] == LEFT
    requires c == b.cur || 0 <= c == b.cur - 1 == b.pos[t]
    ensures Returned(b, t, c).Ok()
  {
    var b' := Returned(b, t, c);
    assert b.ThreadOk(t);
    forall u | 0 <= u < |b.state| ensures b'.ThreadOk(u) {
      assert b.ThreadOk(u);
    }
    forall k | 0 <= k < |b.list| ensures b'.SlotOk(k) {
      assert b.SlotOk(k);
    }
  }

  /** A thread that comes back finds itself at its last index if and only if it has been given an index since it
      joined, or the one it had from before happens to be where it joined. */
  lemma IndexIsPlace(b: Table, t: int)
    requires b.Ok() && 0 <= t < |b.state| && b.state[t] != OFFLINE && 0 <= b.lastIdx[t] < |b.list|
    ensures b.list[b.lastIdx[t]] == t <==> t in b.placed || b.lastIdx[t] == b.joined[t]
  {
    assert b.ThreadOk(t);
    assert b.SlotOk(b.lastIdx[t]);
  }

  // ---------------------------------------------------------------- the left count covers the list

  function Those(state: seq<ThreadState>, s: ThreadState): set<int> {
    set t | 0 <= t < |state| && state[t] == s
  }

  lemma {:induction false} CountIsCard(state: seq<ThreadState>, s: ThreadState)
    ensures |Those(state, s)| == Count(state, s)
  {
    if state != [] {
      var n := |state| - 1;
      CountIsCard(state[..n], s);
      ThoseSplit(state, s);
    }
  }

  lemma ThoseSplit(state: seq<ThreadState>, s: ThreadState)
    requires state != []
    ensures Those(state, s) == Those(state[..|state| - 1], s) + (if state[|state| - 1] == s then {|state| - 1} else {})
  {
    var last := |state| - 1;
    forall t
      ensures t in Those(state, s) <==> t in Those(state[..last], s) + if state[last] == s then {last} else {}
    {
    }
  }

  lemma {:induction false} DistinctCard(list: seq<int>)
    requires forall i, j | 0 <= i < j < |list| :: list[i] != list[j]
    ensures |set t | t in list| == |list|
  {
    if list != [] {
      var n := |list| - 1;
      DistinctCard(list[..n]);
      assert (set t | t in list) == (set t | t in list[..n]) + {list[n]};
    }
  }

  /** The run list holds exactly the threads that are not offline, each once. */
  lemma ListIsMembership(b: Table)
    requires b.Ok()
    ensures forall t | 0 <= t < |b.state| :: b.state[t] != OFFLINE <==> t in b.list
    ensures forall i, j | 0 <= i < j < |b.list| :: b.list[i] != b.list[j]
    ensures forall t | t in b.list :: 0 <= t < |b.state|
  {
    forall i | 0 <= i < |b.list| ensures 0 <= b.list[i] < |b.state| && b.state[b.list[i]] != OFFLINE {
      assert b.SlotOk(i);
    }
    forall t | 0 <= t < |b.state| ensures b.state[t] != OFFLINE ==> t in b.list {
      assert b.ThreadOk(t);
    }
    forall i, j | 0 <= i < j < |b.list| ensures b.list[i] != b.list[j] {
      assert b.SlotOk(i);
      assert b.SlotOk(j);
    }
  }

  lemma SameSize(A: set<int>, B: set<int>)
    requires A <= B && |A| == |B|
    ensures A == B
  {
    assert B == A + (B - A);
    assert |B| == |A| + |B - A|;
    assert |B - A| == 0;
  }

  lemma LeftAreListed(b: Table)
    requires b.Ok()
    ensures Those(b.state, LEFT) <= set t | t in b.list
    ensures |set t | t in b.list| == |b.list| && |Those(b.state, LEFT)| == Count(b.state, LEFT)
  {
    ListIsMembership(b);
    DistinctCard(b.list);
    CountIsCard(b.state, LEFT);
  }

  /** leftThreads reaches the length of the run list exactly when every thread on it has left. */
  lemma AllLeft(b: Table)
    requires b.Ok()
    ensures Count(b.state, LEFT) == |b.list|
      <==> forall t | 0 <= t < |b.state| :: b.state[t] == OFFLINE || b.state[t] == LEFT
  {
    LeftAreListed(b);
    var A, B := Those(b.state, LEFT), set t | t in b.list;
    if Count(b.state, LEFT) == |b.list| {
      SameSize(A, B);
      forall t | 0 <= t < |b.state| ensures b.state[t] == OFFLINE || b.state[t] == LEFT {
        assert b.ThreadOk(t);
        assert b.state[t] != OFFLINE ==> t in B;
      }
    }
    if forall t | 0 <= t < |b.state| :: b.state[t] == OFFLINE || b.state[t] == LEFT {
      ListIsMembership(b);
      assert A == B;
    }
  }

  class Barrier {
    const parallelThreads: int
    var state: seq<ThreadState>
    var lastIdx: seq<int>
    var runList: seq<int>
    var curThreadIdx: int
    var runningThreads: int
    var leftThreads: int
    var phaseCount: int
    ghost var pos: seq<int>
    ghost var joined: seq<int>
    ghost var placed: set<int>
    ghost var ran: set<int>
    ghost var missed: set<int>
    /** Phases ended so far. */
    ghost var phases: int

    ghost function Tb(): Table
      reads this
    {
      Table(state, lastIdx, runList, curThreadIdx, pos, joined, placed, ran, missed)
    }

    ghost predicate Valid()
      reads this
    {
      && parallelThreads >= 1 && Tb().Ok()
      && runningThreads == Count(state, RUNNING) <= parallelThreads
      && leftThreads == Count(state, LEFT)
    }

    /** Some thread runs, unless none is waiting to. */
    ghost predicate Live()
      reads this
    {
      runningThreads > 0 || forall t | 0 <= t < |state| :: state[t] != WAITING
    }

    /** No waiting thread has a turn to come in this phase. */
    ghost predicate AllRan()
      reads this
    {
      forall t | 0 <= t < |state| && state[t] == WAITING :: t in ran || t in missed
    }

    ghost predicate SomeWaits()
      reads this
    {
      exists t | 0 <= t < |state| :: state[t] == WAITING
    }

    /** The phase is over: nobody runs, somebody waits, and no waiting thread has a turn to come. */
    ghost predicate Due()
      requires Valid()
      reads this
    {
      && runningThreads == 0
      && SomeWaits()
      && AllRan()
    }

    /** Everyone is offline. The last indices stay as the memory happens to be. */
    constructor (parallel: int, indices: seq<nat>)
      requires parallel >= 1
      ensures Valid() && Live() && parallelThreads == parallel && phases == 0 && runList == [] && lastIdx == indices
      ensures ran == {} && missed == {}
      ensures |state| == |indices| && forall t | 0 <= t < |state| :: state[t] == OFFLINE
    {
      var maxThreads := |indices|;
      parallelThreads := parallel;
      state := seq(maxThreads, _ => OFFLINE);
      lastIdx := indices;
      runList, curThreadIdx, runningThreads, leftThreads, phaseCount := [], 0, 0, 0, 0;
      pos, joined := seq(maxThreads, _ => 0), seq(maxThreads, _ => 0);
      placed, ran, missed, phases := {}, {}, {}, 0;
      new;
      CountZero(state, RUNNING);
      CountZero(state, LEFT);
      forall t | 0 <= t < |state| ensures Tb().ThreadOk(t) {
      }
    }

    /** Wakes threads, in run-list order, while there is room. */
    method CheckRunList()
      requires Valid()
      modifies this`state, this`lastIdx, this`curThreadIdx, this`runningThreads, this`placed, this`ran
      ensures Valid() && |state| == |old(state)| && curThreadIdx >= old(curThreadIdx)
      ensures runningThreads == parallelThreads || curThreadIdx == |runList|
      ensures WokenOnly(old(state), state)
      ensures runningThreads > old(runningThreads)
        || (state == old(state) && ran == old(ran) && runningThreads == old(runningThreads))
      ensures old(AllRan()) ==> runningThreads == old(runningThreads)
      ensures ran == old(ran) + Woken(old(state), state) && Woken(old(state), state) !! old(ran)
      ensures forall t | 0 <= t < |state| && t !in Woken(old(state), state) :: lastIdx[t] == old(lastIdx)[t]
    {
      while runningThreads < parallelThreads && curThreadIdx < |runList|
        invariant Valid() && |state| == |old(state)| && old(curThreadIdx) <= curThreadIdx
        invariant WokenOnly(old(state), state)
        invariant runningThreads > old(runningThreads)
          || (state == old(state) && ran == old(ran) && runningThreads == old(runningThreads))
        invariant old(AllRan()) ==> runningThreads == old(runningThreads)
        invariant ran == old(ran) + Woken(old(state), state) && Woken(old(state), state) !! old(ran)
        invariant forall t | 0 <= t < |state| && t !in Woken(old(state), state) :: lastIdx[t] == old(lastIdx)[t]
        decreases |runList| - curThreadIdx
      {
        ghost var between := state;
        NextThread();
        WokenInTwo(old(state), between, state);
      }
    }

    /** Considers the next thread of the list, and wakes it if it waits. */
    method NextThread()
      requires Valid() && runningThreads < parallelThreads && curThreadIdx < |runList|
      modifies this`state, this`lastIdx, this`curThreadIdx, this`runningThreads, this`placed, this`ran
      ensures Valid() && curThreadIdx == old(curThreadIdx) + 1 && WokenOnly(old(state), state)
      ensures runningThreads > old(runningThreads)
        || (state == old(state) && ran == old(ran) && runningThreads == old(runningThreads))
      ensures old(AllRan()) ==> runningThreads == old(runningThreads)
      ensures ran == old(ran) + Woken(old(state), state) && Woken(old(state), state) !! old(ran)
      ensures forall t | 0 <= t < |state| && t !in Woken(old(state), state) :: lastIdx[t] == old(lastIdx)[t]
    {
      WakeOk(Tb());
      var wtid := runList[curThreadIdx];
      assert Tb().ThreadOk(wtid);
      if state[wtid] == WAITING {
        WakeUp();
      } else {
        ghost var b := Tb();
        curThreadIdx := curThreadIdx + 1;
        assert Tb() == b.(cur := b.cur + 1);
      }
    }

    method WakeUp()
      requires runningThreads == Count(state, RUNNING) < parallelThreads && leftThreads == Count(state, LEFT)
      requires 0 <= curThreadIdx < |runList| && 0 <= runList[curThreadIdx] < |state| == |lastIdx|
      requires state[runList[curThreadIdx]] == WAITING && Tb().Wake().Ok()
      modifies this`state, this`lastIdx, this`curThreadIdx, this`runningThreads, this`placed, this`ran
      ensures Valid() && Tb() == old(Tb().Wake()) && runningThreads == old(runningThreads) + 1
    {
      ghost var b := Tb();
      var idx := curThreadIdx;
      var wtid := runList[idx];
      CountsAfterChange(state, wtid, RUNNING);
      curThreadIdx := curThreadIdx + 1;
      state := state[wtid := RUNNING];
      lastIdx := lastIdx[wtid := idx];
      runningThreads := runningThreads + 1;
      placed, ran := placed + {wtid}, ran + {wtid};
      assert Tb() == b.Wake();
    }

    /** After a phase, once in 32, takes the threads that left off the list. */
    method Cleanup()
      requires Valid() && curThreadIdx == 0 && ran == {} && runningThreads == 0
      modifies this`state, this`lastIdx, this`runList, this`leftThreads, this`pos, this`placed
      ensures Valid() && LeftGone(old(state), state) && leftThreads == 0
      ensures |runList| == old(|runList|) - old(leftThreads) && Kept(old(runList), runList, old(state))
    {
      var idx := 0;
      ghost var gone := 0;
      while idx < |runList|
        invariant 0 <= idx <= |runList| == old(|runList|) - gone
        invariant Tb().Ok() && Count(state, LEFT) == leftThreads - gone && Count(state, RUNNING) == 0
        invariant LeftGone(old(state), state) && leftThreads == old(leftThreads)
        invariant Kept(old(runList), runList, old(state))
        invariant forall i | 0 <= i < idx :: 0 <= runList[i] < |state| && state[runList[i]] != LEFT
        decreases |runList| - idx
      {
        assert Tb().SlotOk(idx);
        if state[runList[idx]] == LEFT {
          TakeOff(idx);
          gone := gone + 1;
        } else {
          idx := idx + 1;
        }
      }
      NobodyLeft(Tb());
      CountZero(state, LEFT);
      leftThreads := 0;
    }

    /** The thread at idx goes offline and the last entry moves into its place. */
    method TakeOff(idx: int)
      requires Tb().Ok() && curThreadIdx == 0 && ran == {} && 0 <= idx < |runList|
      requires 0 <= runList[idx] < |state| && state[runList[idx]] == LEFT
      modifies this`state, this`lastIdx, this`runList, this`pos, this`placed
      ensures Tb().Ok() && |state| == |old(state)| && |runList| == old(|runList|) - 1
      ensures state == old(state[runList[idx] := OFFLINE])
      ensures forall i | 0 <= i < |runList| && i != idx :: runList[i] == old(runList)[i]
      ensures Count(state, LEFT) == old(Count(state, LEFT)) - 1 && Count(state, RUNNING) == old(Count(state, RUNNING))
    {
      RemoveOk(Tb(), idx);
      ghost var b := Tb();
      var wtid := runList[idx];
      CountsAfterChange(state, wtid, OFFLINE);
      state := state[wtid := OFFLINE];
      var stid := runList[|runList| - 1];
      runList := runList[idx := stid][..|runList| - 1];
      lastIdx := lastIdx[stid := idx];
      pos, placed := pos[stid := idx], placed + {stid} - {wtid};
      assert Tb() == RemoveAt(b, idx);
    }

    /** Shuffles the run list; draw(i) is the random number in 0..i drawn at step i. */
    method Shuffle(draw: int -> int)
      requires Tb().Ok() && curThreadIdx == 0 && |runList| > 0
      requires InRange(draw)
      modifies this`lastIdx, this`runList, this`pos, this`placed
      ensures Tb().Ok() && runList == FisherYates(old(runList), |old(runList)| - 1, draw)
    {
      var i := |runList| - 1;
      while i > 0
        invariant 0 <= i < |runList| == |old(runList)| && Tb().Ok()
        invariant FisherYates(runList, i, draw) == FisherYates(old(runList), |old(runList)| - 1, draw)
        decreases i
      {
        var j := draw(i);
        ShuffleStep(runList, i, draw);
        SwapEntries(i, j);
        i := i - 1;
      }
    }

    method SwapEntries(i: int, j: int)
      requires Tb().Ok() && curThreadIdx == 0 && 0 <= i < |runList| && 0 <= j < |runList|
      modifies this`lastIdx, this`runList, this`pos, this`placed
      ensures Tb().Ok() && runList == Swapped(old(runList), i, j)
    {
      ghost var b := Tb();
      SwapOk(b, i, j);
      var itid, jtid := runList[i], runList[j];
      runList := runList[i := jtid][j := itid];
      lastIdx := lastIdx[jtid := i][itid := j];
      pos, placed := pos[jtid := i][itid := j], placed + {itid, jtid};
      assert Tb() == SwapAt(b, i, j);
    }

    /** Starts the next phase if this one is over. */
    method CheckEndPhase(draw: int -> int)
      requires Valid() && (runningThreads == parallelThreads || curThreadIdx == |runList|)
      requires InRange(draw)
      modifies this
      ensures Valid() && runningThreads == old(runningThreads)
      ensures LeftGone(old(state), state)
      ensures phases == old(phases) + (if old(Due()) then 1 else 0)
      ensures phases == old(phases) ==> Tb() == old(Tb())
      ensures phases != old(phases) ==>
                && curThreadIdx == 0 && ran == {} && missed == {} && phaseCount == old(phaseCount) + 1
      ensures phases != old(phases) ==> if old(phaseCount) % 32 == 0 then leftThreads == 0 else state == old(state)
      ensures phases != old(phases)
        ==> Reordered(old(runList), runList, old(state), old(phaseCount) % 32 == 0, parallelThreads, draw)
    {
      if curThreadIdx == |runList| && runningThreads == 0 {
        AllLeft(Tb());
        AtEnd();
        ListIsMembership(Tb());
        if leftThreads == |runList| {
          return;
        }
        assert |runList| > 0;
        NewPhase(draw);
      }
    }

    method NewPhase(draw: int -> int)
      requires Valid() && runningThreads == 0 && |runList| > 0 && InRange(draw)
      modifies this
      ensures Valid() && runningThreads == 0 && LeftGone(old(state), state)
      ensures phases == old(phases) + 1 && phaseCount == old(phaseCount) + 1
      ensures curThreadIdx == 0 && ran == {} && missed == {}
      ensures if old(phaseCount) % 32 == 0 then leftThreads == 0 else state == old(state)
      ensures Reordered(old(runList), runList, old(state), old(phaseCount) % 32 == 0, parallelThreads, draw)
    {
      Rewind();
      var cleanup := phaseCount % 32 == 0;
      phaseCount := phaseCount + 1;
      if cleanup {
        Cleanup();
      }
      ghost var list := runList;
      Order(draw);
      assert OrderFrom(list, runList, parallelThreads, draw);
    }

    /** Shuffles the list, unless all its threads can run at once. */
    method Order(draw: int -> int)
      requires Valid() && curThreadIdx == 0 && InRange(draw)
      modifies this`lastIdx, this`runList, this`pos, this`placed
      ensures Valid() && OrderFrom(old(runList), runList, parallelThreads, draw)
    {
      if parallelThreads < |runList| {
        Shuffle(draw);
      }
    }

    method Rewind()
      requires Valid() && runningThreads == 0
      modifies this`curThreadIdx, this`ran, this`missed, this`phases
      ensures Valid() && curThreadIdx == 0 && ran == {} && missed == {} && phases == old(phases) + 1
    {
      RewindOk(Tb());
      ghost var b := Tb();
      phases := phases + 1;
      curThreadIdx, ran, missed := 0, {}, {};
      assert Tb() == b.(cur := 0, ran := {}, missed := {});
    }

    /** At the end of the list, with nobody running, no listed thread has a turn to come. */
    lemma AtEnd()
      requires Valid() && curThreadIdx == |runList| && runningThreads == 0
      ensures AllRan()
      ensures forall t | 0 <= t < |state| :: state[t] != RUNNING
    {
      CountZero(state, RUNNING);
      forall t | 0 <= t < |state| && state[t] == WAITING ensures t in ran || t in missed {
        assert Tb().ThreadOk(t);
        assert Tb().SlotOk(pos[t]);
      }
    }

    /** A waiting thread is behind curThreadIdx exactly if it has run in this phase or missed it. */
    lemma TurnAhead(t: int)
      requires Valid() && 0 <= t < |state| && state[t] == WAITING
      ensures t in ran || t in missed <==> pos[t] < curThreadIdx
      ensures 0 <= pos[t] < |runList| && runList[pos[t]] == t
    {
      assert Tb().ThreadOk(t);
      assert Tb().SlotOk(pos[t]);
    }

    method TryWakeNext(draw: int -> int)
      requires Valid() && InRange(draw)
      modifies this
      ensures Valid() && Live() && |state| == |old(state)|
      ensures phases == old(phases) + (if old(Due()) then 1 else 0)
      ensures Stays(old(state), state)
      ensures ran == (if old(Due()) then {} else old(ran)) + Woken(old(state), state)
      ensures !old(Due()) ==> KeepsRest(old(Tb()), Tb())
      ensures old(Due())
        ==> Reordered(old(runList), runList, old(state), old(phaseCount) % 32 == 0, parallelThreads, draw)
    {
      FirstPass(draw);
      ghost var between, ranBefore := state, ran;
      CheckRunList();
      WokenAcross(old(state), between, between, state);
      if runningThreads == 0 {
        AtEnd();
        assert state == between && ran == ranBefore;
      }
    }

    /** The threads of this phase are woken, and the phase ends if it is due. */
    method FirstPass(draw: int -> int)
      requires Valid() && InRange(draw)
      modifies this
      ensures Valid() && Stays(old(state), state)
      ensures phases == old(phases) + (if old(Due()) then 1 else 0)
      ensures Woken(old(state), state) == {} || !old(Due())
      ensures ran == (if old(Due()) then {} else old(ran)) + Woken(old(state), state)
      ensures old(Due()) ==> missed == {}
      ensures !old(Due()) ==> KeepsRest(old(Tb()), Tb())
      ensures !old(Due()) && runningThreads == 0 ==> !SomeWaits()
      ensures old(Due())
        ==> Reordered(old(runList), runList, old(state), old(phaseCount) % 32 == 0, parallelThreads, draw)
    {
      CheckRunList();
      assert Due() == old(Due()) && (Due() ==> state == old(state));
      ghost var woken := state;
      CheckEndPhase(draw);
      WokenAcross(old(state), woken, state, state);
      if runningThreads == 0 && curThreadIdx == |runList| {
        AtEnd();
      }
    }

    /** The assert on a returning thread's index holds. */
    ghost predicate IndexHolds(tid: int)
      requires Valid() && 0 <= tid < |state|
      reads this
    {
      curThreadIdx <= lastIdx[tid] || tid in placed || lastIdx[tid] == joined[tid]
    }

    /** A thread that left misses its turn if it comes back now: it has been passed over, and the index it has from
        before it joined hides this. */
    ghost predicate Late(tid: int)
      requires Valid() && 0 <= tid < |state|
      reads this
    {
      tid !in placed && joined[tid] < curThreadIdx <= lastIdx[tid]
    }

    /** Thread tid joins, or joins again, and waits its turn; ok is false if the assert on its index fails. */
    method Join(tid: int, draw: int -> int) returns (ok: bool)
      requires Valid() && 0 <= tid < |state| && (state[tid] == LEFT || state[tid] == OFFLINE)
      requires InRange(draw)
      modifies this
      ensures Valid() && |state| == |old(state)|
      ensures ok <==> old(state)[tid] == OFFLINE || old(IndexHolds(tid))
      ensures !ok ==> Tb() == old(Tb()) && phases == old(phases)
      ensures ok ==> Live() && Stays(old(state)[tid := WAITING], state)
      ensures var late := old(state)[tid] == LEFT && old(Late(tid));
        && (ok ==> phases == old(phases) + if late && old(runningThreads) == 0 && old(AllRan()) then 1 else 0)
        && (ok && !late ==>
              state[tid] == RUNNING || (state[tid] == WAITING && tid !in ran && pos[tid] >= curThreadIdx))
        && (ok && late && phases == old(phases) ==>
              state[tid] == WAITING && tid !in ran && pos[tid] < curThreadIdx)
      ensures ok ==> ran == (if phases == old(phases) then old(ran) - {tid} else {})
                            + Woken(old(state)[tid := WAITING], state)
      ensures ok && old(state)[tid] == OFFLINE ==>
                KeepsRest(Appended(old(Tb()), tid), Tb())
    {
      ok := ComeIn(tid);
      if ok {
        Settle(tid, draw);
      }
    }

    /** The thread is on the list and waits, or the assert fails. */
    method ComeIn(tid: int) returns (ok: bool)
      requires Valid() && 0 <= tid < |state| && (state[tid] == LEFT || state[tid] == OFFLINE)
      modifies this`state, this`lastIdx, this`runList, this`curThreadIdx, this`leftThreads
      modifies this`pos, this`joined, this`placed, this`ran, this`missed
      ensures Valid() && (ok <==> old(state)[tid] == OFFLINE || old(IndexHolds(tid)))
      ensures !ok ==> Tb() == old(Tb())
      ensures ok ==> state == old(state)[tid := WAITING] && ran == old(ran) - {tid} && tid !in ran
      ensures ok ==> missed - {tid} == old(missed) - {tid}
      ensures ok ==> (tid in missed <==> old(state)[tid] == LEFT && old(Late(tid)))
      ensures ok && tid in missed ==> (AllRan() <==> old(AllRan()))
      ensures ok && old(state)[tid] == OFFLINE ==> Tb() == Appended(old(Tb()), tid)
    {
      ghost var before, over, late := state, ran, missed;
      if state[tid] == OFFLINE {
        assert Tb().ThreadOk(tid);
        Append(tid);
        ok := true;
      } else {
        ok := Rejoin(tid);
      }
      if ok {
        assert forall t | 0 <= t < |state| && t != tid ::
            state[t] == before[t] && (t in ran <==> t in over) && (t in missed <==> t in late);
      }
    }

    /** The thread waits its turn; others may be woken, and the phase ends only if the thread has missed its turn. */
    method Settle(tid: int, draw: int -> int)
      requires Valid() && 0 <= tid < |state| && state[tid] == WAITING && tid !in ran && InRange(draw)
      modifies this
      ensures Valid() && Live() && Stays(old(state), state)
      ensures phases == old(phases) + (if tid in old(missed) && old(runningThreads == 0 && AllRan()) then 1 else 0)
      ensures tid !in old(missed) ==>
                state[tid] == RUNNING || (state[tid] == WAITING && tid !in ran && pos[tid] >= curThreadIdx)
      ensures tid in old(missed) && phases == old(phases) ==>
                state[tid] == WAITING && tid !in ran && pos[tid] < curThreadIdx
      ensures ran == (if phases == old(phases) then old(ran) else {}) + Woken(old(state), state)
      ensures phases == old(phases) ==> KeepsRest(old(Tb()), Tb())
    {
      TurnAhead(tid);
      TryWakeNext(draw);
      if state[tid] == WAITING {
        TurnAhead(tid);
      }
      assert Tb().ThreadOk(tid);
    }

    method Append(tid: int)
      requires Valid() && 0 <= tid < |state| && state[tid] == OFFLINE
      modifies this`state, this`runList, this`pos, this`joined
      ensures Valid() && Tb() == Appended(old(Tb()), tid)
      ensures tid !in ran && tid !in missed
    {
      AppendOk(Tb(), tid);
      assert Tb().ThreadOk(tid);
      ghost var b := Tb();
      CountsAfterChange(state, tid, WAITING);
      pos, joined := pos[tid := |runList|], joined[tid := |runList|];
      runList := runList + [tid];
      state := state[tid := WAITING];
      assert Tb() == Appended(b, tid);
    }

    /** A thread that left comes back; if its turn had passed by its last index, it trades places to have one more. */
    method Rejoin(tid: int) returns (ok: bool)
      requires Valid() && 0 <= tid < |state| && state[tid] == LEFT
      modifies this`state, this`lastIdx, this`runList, this`curThreadIdx, this`leftThreads, this`pos, this`placed
      modifies this`ran, this`missed
      ensures Valid() && (ok <==> old(IndexHolds(tid)))
      ensures !ok ==> Tb() == old(Tb())
      ensures ok ==> state == old(state)[tid := WAITING] && ran == old(ran) - {tid}
      ensures ok ==> missed == if old(Late(tid)) then old(missed) + {tid} else old(missed) - {tid}
      ensures ok ==>
                if old(curThreadIdx) <= old(lastIdx)[tid] then
                  curThreadIdx == old(curThreadIdx) && runList == old(runList)
                else
                  && curThreadIdx == old(curThreadIdx) - 1 && 0 <= curThreadIdx < |runList| == |old(runList)|
                  && runList[curThreadIdx] == tid && 0 <= old(lastIdx)[tid] < |runList|
                  && runList == Swapped(old(runList), old(lastIdx)[tid], curThreadIdx)
    {
      assert Tb().ThreadOk(tid);
      var last := lastIdx[tid];
      if curThreadIdx > last {
        IndexIsPlace(Tb(), tid);
        if runList[last] != tid {
          return false;
        }
      }
      ComeBack(tid);
      ok := true;
    }

    method ComeBack(tid: int)
      requires Valid() && 0 <= tid < |state| && state[tid] == LEFT && IndexHolds(tid)
      modifies this`state, this`lastIdx, this`runList, this`curThreadIdx, this`leftThreads, this`pos, this`placed
      modifies this`ran, this`missed
      ensures Valid() && state == old(state)[tid := WAITING] && ran == old(ran) - {tid}
      ensures missed == if old(Late(tid)) then old(missed) + {tid} else old(missed) - {tid}
      ensures if old(curThreadIdx) <= old(lastIdx)[tid] then
                curThreadIdx == old(curThreadIdx) && runList == old(runList)
              else
                && curThreadIdx == old(curThreadIdx) - 1 && 0 <= curThreadIdx < |runList| == |old(runList)|
                && runList[curThreadIdx] == tid && 0 <= old(lastIdx)[tid] < |runList|
                && runList == Swapped(old(runList), old(lastIdx)[tid], curThreadIdx)
    {
      assert Tb().ThreadOk(tid);
      var last := lastIdx[tid];
      if curThreadIdx > last {
        TradePlaces(tid, last);
      } else {
        ReturnedOk(Tb(), tid, curThreadIdx);
      }
      Wait(tid);
    }

    method Wait(tid: int)
      requires 0 <= tid < |state| == |pos| && state[tid] == LEFT && Returned(Tb(), tid, curThreadIdx).Ok()
      requires parallelThreads >= 1 && runningThreads == Count(state, RUNNING) <= parallelThreads
      requires leftThreads == Count(state, LEFT)
      modifies this`state, this`leftThreads, this`ran, this`missed
      ensures Valid() && Tb() == Returned(old(Tb()), tid, curThreadIdx)
    {
      CountsAfterChange(state, tid, WAITING);
      leftThreads := leftThreads - 1;
      missed := if pos[tid] < curThreadIdx then missed + {tid} else missed - {tid};
      state, ran := state[tid := WAITING], ran - {tid};
    }

    /** The thread at index last and the one before curThreadIdx trade places, and curThreadIdx steps back. */
    method TradePlaces(tid: int, last: int)
      requires Tb().Ok() && 0 <= tid < |state| && state[tid] == LEFT
      requires 0 <= last == pos[tid] < curThreadIdx && runList[last] == tid
      modifies this`lastIdx, this`runList, this`curThreadIdx, this`pos, this`placed
      ensures |pos| == |state| && Returned(Tb(), tid, curThreadIdx).Ok()
      ensures |runList| == |old(runList)| && 0 <= curThreadIdx == old(curThreadIdx) - 1 < |runList|
      ensures runList[curThreadIdx] == tid && pos[tid] == curThreadIdx
      ensures runList == Swapped(old(runList), last, curThreadIdx)
    {
      ghost var b := Tb();
      assert b.SlotOk(curThreadIdx - 1);
      SwapOk(b, last, curThreadIdx - 1);
      ReturnedOk(SwapAt(b, last, curThreadIdx - 1), tid, curThreadIdx - 1);
      curThreadIdx := curThreadIdx - 1;
      var otherTid := runList[curThreadIdx];
      runList := runList[last := otherTid][curThreadIdx := tid];
      lastIdx := lastIdx[otherTid := last][tid := curThreadIdx];
      pos, placed := pos[otherTid := last][tid := curThreadIdx], placed + {tid, otherTid};
      assert Tb() == SwapAt(b, last, b.cur - 1).(cur := b.cur - 1);
    }

    /** Thread tid leaves; if it was running, another may run. */
    method Leave(tid: int, draw: int -> int)
      requires Valid() && Live() && 0 <= tid < |state|
      requires state[tid] == RUNNING || state[tid] == WAITING
      requires InRange(draw)
      modifies this
      ensures Valid() && Live() && |state| == |old(state)|
      ensures Stays(old(state)[tid := LEFT], state)
      ensures old(state)[tid] == WAITING ==>
                phases == old(phases) && Tb() == old(Tb()).(state := old(state)[tid := LEFT])
      ensures old(state)[tid] == RUNNING
        ==> phases == old(phases) + (if old(runningThreads == 1 && AllRan() && SomeWaits()) then 1 else 0)
      ensures ran == (if phases == old(phases) then old(ran) else {}) + Woken(old(state)[tid := LEFT], state)
    {
      assert Tb().ThreadOk(tid);
      var was := state[tid];
      MoveTo(tid, LEFT);
      if was == RUNNING {
        assert forall t | 0 <= t < |state| && t != tid :: state[t] == old(state)[t];
        TryWakeNext(draw);
      }
    }

    method MoveTo(tid: int, s: ThreadState)
      requires Valid() && 0 <= tid < |state|
      requires (s == LEFT && state[tid] in {RUNNING, WAITING}) || (s == WAITING && state[tid] == RUNNING && tid in ran)
      modifies this`state, this`leftThreads, this`runningThreads
      ensures Valid() && Tb() == old(Tb()).(state := old(state)[tid := s])
      ensures runningThreads == old(runningThreads) - (if old(state)[tid] == RUNNING then 1 else 0)
    {
      ghost var b := Tb();
      ChangeOk(b, tid, s);
      CountsAfterChange(state, tid, s);
      if state[tid] == RUNNING {
        runningThreads := runningThreads - 1;
      }
      if s == LEFT {
        leftThreads := leftThreads + 1;
      }
      state := state[tid := s];
      assert Tb() == b.(state := b.state[tid := s]);
    }

    /** A running thread reaches the end of its interval and waits for the next phase. */
    method Sync(tid: int, draw: int -> int)
      requires Valid() && 0 <= tid < |state| && state[tid] == RUNNING
      requires InRange(draw)
      modifies this
      ensures Valid() && Live() && |state| == |old(state)|
      ensures Stays(old(state)[tid := WAITING], state)
      ensures phases == old(phases) + (if old(runningThreads == 1 && AllRan()) then 1 else 0)
      ensures ran == (if phases == old(phases) then old(ran) else {}) + Woken(old(state)[tid := WAITING], state)
      ensures phases == old(phases) ==> KeepsRest(old(Tb()).(state := old(state)[tid := WAITING]), Tb())
      ensures phases != old(phases)
        ==> Reordered(old(runList), runList, old(state)[tid := WAITING], old(phaseCount) % 32 == 0,
                      parallelThreads, draw)
    {
      assert Tb().ThreadOk(tid);
      MoveTo(tid, WAITING);
      assert state[tid] == WAITING;
      TryWakeNext(draw);
    }
  }

  /** Waking threads changes neither the list nor who missed a turn, the last indices only of those woken, and
      wakes none that has run before. */
  ghost predicate KeepsRest(b: Table, b': Table) {
    && b'.list == b.list && b'.missed == b.missed && |b.lastIdx| == |b'.lastIdx| == |b.state| == |b'.state|
    && Woken(b.state, b'.state) !! b.ran
    && forall t | 0 <= t < |b.state| && t !in Woken(b.state, b'.state) :: b'.lastIdx[t] == b.lastIdx[t]
  }

  /** The threads that a pass has woken. */
  ghost function Woken(before: seq<ThreadState>, after: seq<ThreadState>): set<int> {
    set t | 0 <= t < |after| && t < |before| && before[t] == WAITING && after[t] == RUNNING
  }

  /** Threads going offline in between do not matter. */
  lemma WokenAcross(a: seq<ThreadState>, b: seq<ThreadState>, b': seq<ThreadState>, c: seq<ThreadState>)
    requires Stays(a, b) && LeftGone(b, b') && WokenOnly(b', c)
    ensures Woken(a, c) == Woken(a, b) + Woken(b', c)
  {
  }

  lemma WokenInTwo(a: seq<ThreadState>, b: seq<ThreadState>, c: seq<ThreadState>)
    requires WokenOnly(a, b) && WokenOnly(b, c)
    ensures Woken(a, c) == Woken(a, b) + Woken(b, c)
  {
  }

  /** Threads have only gone from waiting to running. */
  ghost predicate WokenOnly(before: seq<ThreadState>, after: seq<ThreadState>) {
    |after| == |before| && forall t | 0 <= t < |after| ::
      after[t] == before[t] || (before[t] == WAITING && after[t] == RUNNING)
  }

  /** Threads that left may have gone offline; nothing else moved. */
  ghost predicate LeftGone(before: seq<ThreadState>, after: seq<ThreadState>) {
    |after| == |before| && forall t | 0 <= t < |after| ::
      after[t] == before[t] || (before[t] == LEFT && after[t] == OFFLINE)
  }

  /** What a wake-up pass may do to each thread: run a waiting one, take one that left offline. */
  ghost predicate Stays(before: seq<ThreadState>, after: seq<ThreadState>) {
    && |after| == |before|
    && forall t | 0 <= t < |after| ::
      after[t] == before[t] || (before[t] == WAITING && after[t] == RUNNING)
        || (before[t] == LEFT && after[t] == OFFLINE)
  }

  /** Step i of the shuffle draws one of 0, ..., i. */
  ghost predicate InRange(draw: int -> int) {
    forall i | i >= 0 :: 0 <= draw(i) <= i
  }

  ghost function Swapped(list: seq<int>, i: int, j: int): (r: seq<int>)
    requires 0 <= i < |list| && 0 <= j < |list|
    ensures |r| == |list|
  {
    list[i := list[j]][j := list[i]]
  }

  /** A list without the threads that left: each other one keeps its place, unless that is cut off. */
  ghost predicate Kept(before: seq<int>, after: seq<int>, state: seq<ThreadState>) {
    && |after| <= |before|
    && forall i | 0 <= i < |after| && 0 <= before[i] < |state| && state[before[i]] != LEFT :: after[i] == before[i]
  }

  /** The order of a new phase: shuffled exactly if the threads cannot all run at once. */
  ghost predicate OrderFrom(list: seq<int>, after: seq<int>, parallelThreads: int, draw: int -> int)
    requires InRange(draw)
  {
    after == if parallelThreads < |list| then FisherYates(list, |list| - 1, draw) else list
  }

  /** The list of a new phase: first, at a cleanup, without the threads that left; then in the new order. */
  ghost predicate Reordered(before: seq<int>, after: seq<int>, state: seq<ThreadState>, cleanup: bool,
                            parallelThreads: int, draw: int -> int)
    requires InRange(draw)
  {
    exists list :: OrderFrom(list, after, parallelThreads, draw)
      && if cleanup then Kept(before, list, state) && |list| == |before| - Count(state, LEFT) else list == before
  }

  /** The list after the swaps of steps i, i-1, ..., 1, where draw(k) is the number drawn at step k. */
  ghost function FisherYates(list: seq<int>, i: int, draw: int -> int): seq<int>
    requires i < |list| && InRange(draw)
    decreases i
  {
    if i <= 0 then list else FisherYates(Swapped(list, i, draw(i)), i - 1, draw)
  }

  ghost predicate Distinct(list: seq<int>) {
    forall i, j | 0 <= i < j < |list| :: list[i] != list[j]
  }

  lemma ShuffleStep(list: seq<int>, i: int, draw: int -> int)
    requires 0 < i < |list| && InRange(draw)
    ensures FisherYates(list, i, draw) == FisherYates(Swapped(list, i, draw(i)), i - 1, draw)
  {
  }

  /** Steps i and below move nothing after index i, and leave at i the entry that step i draws. */
  lemma {:induction false} ShuffleAbove(list: seq<int>, i: int, draw: int -> int)
    requires -1 <= i < |list| && InRange(draw)
    ensures |FisherYates(list, i, draw)| == |list|
    ensures forall k | i < k < |list| :: FisherYates(list, i, draw)[k] == list[k]
    ensures i > 0 ==> FisherYates(list, i, draw)[i] == list[draw(i)]
    decreases i
  {
    if i > 0 {
      ShuffleAbove(Swapped(list, i, draw(i)), i - 1, draw);
    }
  }

  lemma {:induction false} SameDraws(list: seq<int>, i: int, d: int -> int, e: int -> int)
    requires i < |list| && InRange(d) && InRange(e) && forall k | 1 <= k <= i :: d(k) == e(k)
    ensures FisherYates(list, i, d) == FisherYates(list, i, e)
    decreases i
  {
    if i > 0 {
      SameDraws(Swapped(list, i, d(i)), i - 1, d, e);
    }
  }

  /** No two sequences of draws give the same order. */
  lemma {:induction false} DrawsDetermined(list: seq<int>, i: int, d: int -> int, e: int -> int)
    requires i < |list| && InRange(d) && InRange(e) && Distinct(list)
    requires FisherYates(list, i, d) == FisherYates(list, i, e)
    ensures forall k | 1 <= k <= i :: d(k) == e(k)
    decreases i
  {
    if i > 0 {
      ShuffleAbove(list, i, d);
      ShuffleAbove(list, i, e);
      assert d(i) == e(i);
      DrawsDetermined(Swapped(list, i, d(i)), i - 1, d, e);
    }
  }

  lemma SwapKeeps(list: seq<int>, i: int, j: int)
    requires 0 <= j <= i < |list|
    ensures multiset(Swapped(list, i, j)[..i + 1]) == multiset(list[..i + 1])
    ensures Swapped(list, i, j)[i + 1..] == list[i + 1..]
  {
    var part := list[..i + 1];
    assert Swapped(list, i, j)[..i + 1] == Swapped(part, i, j);
  }

  lemma LastOut(list: seq<int>, i: int)
    requires 0 <= i < |list|
    ensures multiset(list[..i + 1]) == multiset(list[..i]) + multiset{list[i]}
  {
    assert list[..i + 1] == list[..i] + [list[i]];
  }

  ghost predicate SameUpTo(list: seq<int>, i: int, order: seq<int>) {
    && -1 <= i < |list| == |order| && list[i + 1..] == order[i + 1..]
    && multiset(list[..i + 1]) == multiset(order[..i + 1])
  }

  lemma NoDraw(list: seq<int>, i: int, order: seq<int>) returns (draw: int -> int)
    requires SameUpTo(list, i, order) && i <= 0
    ensures InRange(draw) && FisherYates(list, i, draw) == order
  {
    draw := k => 0;
    assert list == list[..i + 1] + list[i + 1..] && order == order[..i + 1] + order[i + 1..];
    if i == 0 {
      assert list[..1] == [list[0]] && order[..1] == [order[0]];
      assert list[0] in multiset([order[0]]);
    }
  }

  lemma Less(a: multiset<int>, b: multiset<int>, x: int)
    requires a + multiset{x} == b + multiset{x}
    ensures a == b
  {
    assert a == (a + multiset{x}) - multiset{x} && b == (b + multiset{x}) - multiset{x};
  }

  lemma FindEntry(list: seq<int>, n: int, x: int) returns (j: int)
    requires 0 <= n <= |list| && x in multiset(list[..n])
    ensures 0 <= j < n && list[j] == x
  {
    assert x in list[..n];
    j :| 0 <= j < n && list[..n][j] == x;
  }

  lemma SlicesMeet(list: seq<int>, order: seq<int>, i: int)
    requires 0 <= i < |list| == |order| && list[i] == order[i] && list[i + 1..] == order[i + 1..]
    ensures list[i..] == order[i..]
  {
    assert list[i..] == [list[i]] + list[i + 1..] && order[i..] == [order[i]] + order[i + 1..];
  }

  lemma Draw(list: seq<int>, i: int, order: seq<int>) returns (j: int, next: seq<int>)
    requires SameUpTo(list, i, order) && i > 0
    ensures 0 <= j <= i < |list| && next == Swapped(list, i, j) && SameUpTo(next, i - 1, order)
  {
    LastOut(order, i);
    j := FindEntry(list, i + 1, order[i]);
    next := Swapped(list, i, j);
    SwapKeeps(list, i, j);
    LastOut(next, i);
    SlicesMeet(next, order, i);
    Less(multiset(next[..i]), multiset(order[..i]), order[i]);
  }

  /** Every order of the entries up to i is the outcome of some draws. */
  lemma {:induction false} EveryOrder(list: seq<int>, i: int, order: seq<int>) returns (draw: int -> int)
    requires SameUpTo(list, i, order)
    ensures InRange(draw) && FisherYates(list, i, draw) == order
    decreases i
  {
    if i <= 0 {
      draw := NoDraw(list, i, order);
    } else {
      var j, next := Draw(list, i, order);
      var rest := EveryOrder(next, i - 1, order);
      draw := DrawFirst(list, i, j, next, rest);
    }
  }

  lemma DrawFirst(list: seq<int>, i: int, j: int, next: seq<int>, rest: int -> int) returns (draw: int -> int)
    requires 0 <= j <= i < |list| && 0 < i && InRange(rest) && next == Swapped(list, i, j)
    ensures InRange(draw) && FisherYates(list, i, draw) == FisherYates(next, i - 1, rest)
  {
    draw := k => if k == i then j else rest(k);
    SameDraws(next, i - 1, rest, draw);
  }

  /** The shuffle is fair: the orders of a list are the outcomes of the draws, each of exactly one. */
  lemma ShuffleIsFair(list: seq<int>, order: seq<int>) returns (draw: int -> int)
    requires Distinct(list) && multiset(order) == multiset(list)
    ensures |order| == |list| && InRange(draw) && FisherYates(list, |list| - 1, draw) == order
    ensures forall d: int -> int | InRange(d) ::
      (FisherYates(list, |list| - 1, d) == order <==> forall k | 1 <= k < |list| :: d(k) == draw(k))
  {
    assert |order| == |multiset(order)| == |multiset(list)| == |list|;
    assert list[..|list|] == list && order[..|list|] == order;
    draw := EveryOrder(list, |list| - 1, order);
    forall d: int -> int | InRange(d)
      ensures FisherYates(list, |list| - 1, d) == order <==> forall k | 1 <= k < |list| :: d(k) == draw(k)
    {
      if FisherYates(list, |list| - 1, d) == order {
        DrawsDetermined(list, |list| - 1, d, draw);
      }
      if forall k | 1 <= k < |list| :: d(k) == draw(k) {
        SameDraws(list, |list| - 1, d, draw);
      }
    }
  }

  lemma SwapPermutes(list: seq<int>, i: int, j: int)
    requires 0 <= i < |list| && 0 <= j < |list|
    ensures multiset(Swapped(list, i, j)) == multiset(list)
  {
  }

  lemma {:induction false} ShufflePermutes(list: seq<int>, i: int, draw: int -> int)
    requires -1 <= i < |list| && InRange(draw)
    ensures multiset(FisherYates(list, i, draw)) == multiset(list)
    decreases i
  {
    if i > 0 {
      SwapPermutes(list, i, draw(i));
      ShufflePermutes(Swapped(list, i, draw(i)), i - 1, draw);
    }
  }

  lemma NobodyLeft(b: Table)
    requires b.Ok() && forall i | 0 <= i < |b.list| :: 0 <= b.list[i] < |b.state| && b.state[b.list[i]] != LEFT
    ensures Count(b.state, LEFT) == 0
  {
    forall t | 0 <= t < |b.state| ensures b.state[t] != LEFT {
      assert b.ThreadOk(t);
    }
    CountZero(b.state, LEFT);
  }

  // ---------------------------------------------------------------- an index from before

  lemma OneRuns(state: seq<ThreadState>, t: int, u: int)
    requires Count(state, RUNNING) <= 1 && 0 <= t < |state| && 0 <= u < |state|
    requires state[t] == RUNNING && state[u] == RUNNING
    ensures t == u
  {
    CountIsCard(state, RUNNING);
    if t != u {
      assert {t, u} <= Those(state, RUNNING);
      Subset({t, u}, Those(state, RUNNING));
    }
  }

  lemma Subset(A: set<int>, B: set<int>)
    requires A <= B
    ensures |A| <= |B|
  {
    assert B == A + (B - A);
  }

  /** With room for one to run, thread 0 joins and runs, thread 1 joins and waits. */
  method TwoJoin(indices: seq<nat>, draw: int -> int) returns (b: Barrier)
    requires |indices| >= 2 && InRange(draw)
    ensures fresh(b) && b.Valid() && b.Live() && b.parallelThreads == 1 && b.phases == 0 && |b.state| == |indices|
    ensures b.runList == [0, 1] && b.curThreadIdx == 1 && b.ran == {0} && b.missed == {}
    ensures b.state[0] == RUNNING && b.state[1] == WAITING
    ensures forall t | 1 <= t < |indices| :: b.lastIdx[t] == indices[t] && (t > 1 ==> b.state[t] == OFFLINE)
  {
    b := new Barrier(1, indices);
    var ok := b.Join(0, draw);
    CountZero(b.state, RUNNING);
    assert b.Tb().ThreadOk(0);
    assert b.state[0] == RUNNING && b.ran == {0};
    ok := b.Join(1, draw);
    assert b.Tb().ThreadOk(0) && b.Tb().SlotOk(1);
    if b.state[1] == RUNNING {
      OneRuns(b.state, 0, 1);
    }
  }

  /** Thread 1 leaves before it was ever woken, and comes back: the assert on its index fails if and only if the
      memory held 0, which is the place of thread 0. */
  method LeaveBeforeTurn(indices: seq<nat>, draw: int -> int) returns (b: Barrier, ok: bool)
    requires |indices| >= 2 && InRange(draw)
    ensures b.Valid() && (ok <==> indices[1] != 0)
    ensures !ok ==> |b.lastIdx| > 1 && 0 <= b.lastIdx[1] < b.curThreadIdx < |b.runList| && b.runList[b.lastIdx[1]] != 1
  {
    b := TwoJoin(indices, draw);
    b.Leave(1, draw);
    assert b.Tb().ThreadOk(1);
    if b.lastIdx[1] < 2 {
      IndexIsPlace(b.Tb(), 1);
    }
    ok := b.Join(1, draw);
  }

  method ThirdJoins(b: Barrier, draw: int -> int)
    requires b.Valid() && b.Live() && b.parallelThreads == 1 && |b.state| >= 3 && InRange(draw)
    requires b.runList == [0, 1] && b.curThreadIdx == 1 && b.ran == {0} && b.missed == {}
    requires b.state[0] == RUNNING && b.state[1] == WAITING && forall t | 1 < t < |b.state| :: b.state[t] == OFFLINE
    modifies b
    ensures b.Valid() && b.Live() && b.phases == old(b.phases) && |b.state| == |old(b.state)|
    ensures b.runList == [0, 1, 2] && b.curThreadIdx == 1 && b.ran == {0} && b.missed == {}
    ensures b.state == old(b.state)[2 := WAITING] && b.lastIdx[1] == old(b.lastIdx)[1]
  {
    var ok := b.Join(2, draw);
    assert b.Tb().ThreadOk(0) && b.Tb().SlotOk(1);
    assert b.state[0] == RUNNING;
    forall t | 0 < t < |b.state| ensures b.state[t] != RUNNING {
      if b.state[t] == RUNNING {
        OneRuns(b.state, 0, t);
      }
    }
    assert b.Tb().SlotOk(2);
  }

  /** Thread 0 syncs; thread 1 has left and is passed over, and thread 2 runs. */
  method ThirdRuns(b: Barrier, draw: int -> int)
    requires b.Valid() && b.parallelThreads == 1 && |b.state| >= 3 && InRange(draw)
    requires b.runList == [0, 1, 2] && b.ran == {0} && b.missed == {}
    requires b.state[0] == RUNNING && b.state[1] == LEFT && b.state[2] == WAITING
    requires forall t | 2 < t < |b.state| :: b.state[t] == OFFLINE
    modifies b
    ensures b.Valid() && b.Live() && b.phases == old(b.phases) && |b.state| == |old(b.state)|
    ensures b.runList == [0, 1, 2] && b.curThreadIdx == 3 && 0 in b.ran && 1 !in b.ran && b.missed == {}
    ensures b.state[0] == WAITING && b.state[1] == LEFT && b.state[2] == RUNNING && b.lastIdx[1] == old(b.lastIdx)[1]
    ensures forall t | 2 < t < |b.state| :: b.state[t] == OFFLINE
  {
    assert b.state[2] == WAITING && 2 !in b.ran;
    b.Sync(0, draw);
    CountZero(b.state, RUNNING);
    assert b.Tb().ThreadOk(2) && b.Tb().SlotOk(1) && b.Tb().SlotOk(2);
  }

  lemma LateState(b: Barrier)
    requires b.Valid() && b.parallelThreads == 1 && |b.state| >= 3 && b.state[2] == RUNNING
    requires b.state[1] == WAITING && b.pos[1] < b.curThreadIdx && 1 !in b.ran
    requires b.state[0] == WAITING ==> 0 in b.ran
    requires forall t | 2 < t < |b.state| :: b.state[t] == OFFLINE
    ensures b.AllRan() && b.runningThreads == 1
  {
    b.TurnAhead(1);
    CountZero(b.state, RUNNING);
  }

  /** If the memory held a larger index, the assert passes but the turn is lost: thread 1 waits behind curThreadIdx
      without having run, and the phase is due as soon as the running thread syncs. */
  method LateReturn(indices: seq<nat>, draw: int -> int) returns (b: Barrier, ok: bool)
    requires |indices| >= 3 && indices[1] >= 3 && InRange(draw)
    ensures b.Valid() && ok && |b.state| == |indices| && b.phases == 0
    ensures b.state[1] == WAITING && 1 !in b.ran && b.pos[1] < b.curThreadIdx
    ensures b.state[2] == RUNNING && b.runningThreads == 1 && b.AllRan()
  {
    b := TwoJoin(indices, draw);
    ThirdJoins(b, draw);
    b.Leave(1, draw);
    ThirdRuns(b, draw);
    assert b.Tb().ThreadOk(1);
    ok := b.Join(1, draw);
    LateState(b);
  }
}
