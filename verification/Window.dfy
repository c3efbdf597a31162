/** The instruction window's port reservations. Near cycles live in two arrays of H cycles each, far ones in
    an ordered map; every H cycles the arrays swap and the map's next H cycles move in. To its users it is one
    unbounded table from absolute cycles to reserved ports, and moving through time does not change it.
 */
module Window {

  /** An 8-bit port mask, as the set of its bits. */
  type Ports = s: set<int> | forall p | p in s :: 0 <= p < 8

  /** Ports taken in one cycle, and how many of them by instructions that count towards occupancy. */
  datatype WinCycle = WinCycle(occUnits: Ports, count: nat)

  const NONE := WinCycle({}, 0)

  function Avail(wc: WinCycle, portMask: Ports): (avail: Ports)
    ensures avail == {} <==> portMask <= wc.occUnits
  {
    assert forall p | p in portMask :: p in wc.occUnits || p in portMask - wc.occUnits;
    portMask - wc.occUnits
  }

  /** The number of the lowest bit that is set. */
  function FirstPort(avail: Ports, p: int := 0): (r: int)
    requires 0 <= p <= 8 && exists q :: q in avail && p <= q
    ensures r in avail && p <= r && forall q | p <= q < r :: q !in avail
    decreases 8 - p
  {
    if p in avail then p else FirstPort(avail, p + 1)
  }

  /** The lowest port of the mask that is free. */
  function SomePort(wc: WinCycle, portMask: Ports): (p: int)
    requires Avail(wc, portMask) != {}
    ensures p in portMask && p !in wc.occUnits && 0 <= p < 8
    ensures forall q | 0 <= q < p :: q in portMask ==> q in wc.occUnits
  {
    assert exists q :: q in Avail(wc, portMask) && 0 <= q by {
      if forall q :: q !in Avail(wc, portMask) {
        assert false;
      }
    }
    FirstPort(Avail(wc, portMask))
  }

  /** trySchedule's update: one free port and one more instruction, or for a shadow request the whole mask. */
  function Reserve(wc: WinCycle, portMask: Ports, touchOccupancy: bool): (r: WinCycle)
    requires Avail(wc, portMask) != {}
  {
    if touchOccupancy then WinCycle(wc.occUnits + {SomePort(wc, portMask)}, wc.count + 1)
    else WinCycle(wc.occUnits + portMask, wc.count)
  }

  // ---------------------------------------------------------------- the unbounded table

  /** The entry of an absolute cycle; cycles beyond the end are free. */
  function Get(table: seq<WinCycle>, c: int): WinCycle {
    if 0 <= c < |table| then table[c] else NONE
  }

  function Put(table: seq<WinCycle>, c: int, wc: WinCycle): (r: seq<WinCycle>)
    requires 0 <= c
    ensures forall d: int :: Get(r, d) == if d == c then wc else Get(table, d)
  {
    if c < |table| then table[c := wc] else table + seq(c - |table|, _ => NONE) + [wc]
  }

  /** Instructions reserved from cycle c on. */
  function Sum(table: seq<WinCycle>, c: int): (n: nat)
    requires 0 <= c
    decreases |table| - c
  {
    if c >= |table| then 0 else table[c].count + Sum(table, c + 1)
  }

  lemma {:induction false} SumOfPut(table: seq<WinCycle>, c: int, r: int, wc: WinCycle)
    requires 0 <= c <= r
    ensures Sum(Put(table, r, wc), c) == Sum(table, c) + wc.count - Get(table, r).count
    decreases r - c
  {
    if c < r {
      SumOfPut(table, c + 1, r, wc);
      assert Get(Put(table, r, wc), c) == Get(table, c);
    } else {
      SumSame(table, Put(table, r, wc), c + 1);
      assert Get(Put(table, r, wc), c) == wc;
    }
  }

  lemma {:induction false} SumSame(s: seq<WinCycle>, s': seq<WinCycle>, c: int)
    requires 0 <= c && |s| <= |s'| && forall d | d >= c :: Get(s', d) == Get(s, d)
    ensures Sum(s', c) == Sum(s, c)
    decreases |s'| - c
  {
    if c < |s'| {
      SumSame(s, s', c + 1);
      assert Get(s', c) == Get(s, c);
    }
  }

  /** The cycle that a request gets: the first one from `from` on with a free port of the mask. */
  ghost predicate FirstFree(table: seq<WinCycle>, from: int, portMask: Ports, r: int) {
    && from <= r
    && !(portMask <= Get(table, r).occUnits)
    && forall c | from <= c < r :: portMask <= Get(table, c).occUnits
  }

  // ---------------------------------------------------------------- the ordered map

  ghost predicate Sorted(ub: seq<(int, WinCycle)>) {
    forall i, j | 0 <= i < j < |ub| :: ub[i].0 < ub[j].0
  }

  function UbGet(ub: seq<(int, WinCycle)>, c: int): WinCycle {
    if ub == [] then NONE else if ub[0].0 == c then ub[0].1 else UbGet(ub[1..], c)
  }

  lemma {:induction false} UbAt(ub: seq<(int, WinCycle)>, i: int)
    requires Sorted(ub) && 0 <= i < |ub|
    ensures UbGet(ub, ub[i].0) == ub[i].1
  {
    if i > 0 {
      UbAt(ub[1..], i - 1);
    }
  }

  lemma {:induction false} UbAbsent(ub: seq<(int, WinCycle)>, c: int)
    requires forall i | 0 <= i < |ub| :: ub[i].0 != c
    ensures UbGet(ub, c) == NONE
  {
    if ub != [] {
      UbAbsent(ub[1..], c);
    }
  }

  /** Two ordered maps with the same entries below `at` and from `at'` on agree outside. */
  lemma {:induction false} UbConcat(a: seq<(int, WinCycle)>, b: seq<(int, WinCycle)>, c: int)
    requires forall i | 0 <= i < |a| :: a[i].0 != c
    ensures UbGet(a + b, c) == UbGet(b, c)
  {
    if a == [] {
      assert a + b == b;
    } else {
      assert (a + b)[1..] == a[1..] + b;
      UbConcat(a[1..], b, c);
    }
  }

  lemma {:induction false} UbPrefix(a: seq<(int, WinCycle)>, b: seq<(int, WinCycle)>, c: int)
    requires forall i | 0 <= i < |b| :: b[i].0 != c
    ensures UbGet(a + b, c) == UbGet(a, c)
  {
    if a == [] {
      assert a + b == b;
      UbAbsent(b, c);
    } else {
      assert (a + b)[1..] == a[1..] + b;
      UbPrefix(a[1..], b, c);
    }
  }

  /** What the first `it` entries say about cycle c. */
  ghost function FirstEntries(ub: seq<(int, WinCycle)>, it: int, c: int): WinCycle {
    if exists i :: 0 <= i < it && i < |ub| && ub[i].0 == c then UbGet(ub, c) else NONE
  }

  /** Setting the entry of one key: an insertion before position at, or an update there. */
  function UbSet(ub: seq<(int, WinCycle)>, at: int, c: int, wc: WinCycle): seq<(int, WinCycle)>
    requires 0 <= at <= |ub|
  {
    ub[..at] + [(c, wc)] + if at < |ub| && ub[at].0 == c then ub[at + 1..] else ub[at..]
  }

  lemma UbSetSorted(ub: seq<(int, WinCycle)>, at: int, c: int, wc: WinCycle, low: int)
    requires Sorted(ub) && 0 <= at <= |ub|
    requires (forall i | 0 <= i < at :: ub[i].0 < c) && (forall i | at <= i < |ub| :: ub[i].0 >= c)
    requires low <= c && forall i | 0 <= i < |ub| :: low <= ub[i].0
    ensures Sorted(UbSet(ub, at, c, wc))
    ensures forall i | 0 <= i < |UbSet(ub, at, c, wc)| :: low <= UbSet(ub, at, c, wc)[i].0
  {
  }

  lemma UbSetGet(ub: seq<(int, WinCycle)>, at: int, c: int, wc: WinCycle, d: int)
    requires 0 <= at <= |ub|
    requires forall i | 0 <= i < at :: ub[i].0 < c
    ensures UbGet(UbSet(ub, at, c, wc), d) == if d == c then wc else UbGet(ub, d)
  {
    var here := at < |ub| && ub[at].0 == c;
    var lo, hi := ub[..at], if here then ub[at + 1..] else ub[at..];
    assert UbSet(ub, at, c, wc) == lo + [(c, wc)] + hi;
    if d == c {
      assert lo + [(c, wc)] + hi == lo + ([(c, wc)] + hi);
      UbConcat(lo, [(c, wc)] + hi, d);
    } else {
      UbSkip(lo, (c, wc), hi, d);
      if here {
        assert ub == lo + [ub[at]] + hi;
        UbSkip(lo, ub[at], hi, d);
      } else {
        assert ub == lo + hi;
      }
    }
  }

  /** An entry of another key does not matter. */
  lemma {:induction false} UbSkip(lo: seq<(int, WinCycle)>, e: (int, WinCycle), hi: seq<(int, WinCycle)>, d: int)
    requires e.0 != d
    ensures UbGet(lo + [e] + hi, d) == UbGet(lo + hi, d)
  {
    if lo == [] {
      assert lo + [e] + hi == [e] + hi && ([e] + hi)[1..] == hi && lo + hi == hi;
    } else {
      assert (lo + [e] + hi)[1..] == lo[1..] + [e] + hi && (lo + hi)[1..] == lo[1..] + hi;
      UbSkip(lo[1..], e, hi, d);
    }
  }

  // ---------------------------------------------------------------- the structure

  /** The entry of absolute cycle c when the current window starts at cycle base. */
  ghost function At(cur: seq<WinCycle>, next: seq<WinCycle>, ub: seq<(int, WinCycle)>, base: int, c: int): WinCycle
    requires |cur| == |next| && base <= c
  {
    if c < base + |cur| then cur[c - base]
    else if c < base + 2 * |cur| then next[c - base - |cur|]
    else UbGet(ub, c)
  }

  /** The three tiers hold the table from cycle now on. */
  ghost predicate Refines(cur: seq<WinCycle>, next: seq<WinCycle>, ub: seq<(int, WinCycle)>, base: int, now: int,
                          table: seq<WinCycle>)
    requires |cur| == |next| && base <= now
  {
    && Sorted(ub) && (forall i | 0 <= i < |ub| :: base + 2 * |cur| <= ub[i].0)
    && (forall i | 0 <= i < now - base && i < |cur| :: cur[i] == NONE)
    && forall c {:trigger At(cur, next, ub, base, c)} | now <= c :: At(cur, next, ub, base, c) == Get(table, c)
  }

  /** The cycles in extra, and no others, have gained one port, which was free there; they are the first
      cycles after c0 at which it was.
   */
  ghost predicate AddsPort(t: seq<WinCycle>, t': seq<WinCycle>, c0: int, port: int, extra: seq<int>) {
    && (forall i | 0 <= i < |extra| ::
      (if i == 0 then c0 else extra[i - 1]) < extra[i] && port !in Get(t, extra[i]).occUnits)
    && (forall i | 0 <= i < |extra| :: c0 < extra[i] && extra[i] <= extra[|extra| - 1])
    && (forall c: int :: Get(t', c).count == Get(t, c).count
          && Get(t', c).occUnits == Get(t, c).occUnits + if c in extra then {port} else {})
    && (extra != [] ==> forall c | c0 < c <= extra[|extra| - 1] :: port in Get(t', c).occUnits)
  }

  lemma AddsOneMore(t: seq<WinCycle>, t1: seq<WinCycle>, t2: seq<WinCycle>, c0: int, port: int, extra: seq<int>, c: int)
    requires 0 <= port < 8 && 0 <= c0
    requires AddsPort(t, t1, c0, port, extra)
    requires FirstFree(t1, (if extra == [] then c0 else extra[|extra| - 1]) + 1, {port}, c)
    requires t2 == Put(t1, c, Reserve(Get(t1, c), {port}, false))
    ensures AddsPort(t, t2, c0, port, extra + [c])
  {
    var extra' := extra + [c];
    var last := if extra == [] then c0 else extra[|extra| - 1];
    assert port in Avail(Get(t1, c), {port});
    forall d | c0 < d <= c ensures port in Get(t2, d).occUnits {
      if last < d < c {
        assert port !in Avail(Get(t1, d), {port});
      }
    }
  }

  /** All cycles from `from` to `to` have lost every port of the mask, and nothing else has changed. */
  ghost predicate PoisonedUpTo(t: seq<WinCycle>, t': seq<WinCycle>, portMask: Ports, from: int, to: int) {
    forall c: int ::
      Get(t', c) == if from <= c <= to then Get(t, c).(occUnits := Get(t, c).occUnits + portMask) else Get(t, c)
  }

  /** The target range has lost every port of the mask, and so has one more cycle r. */
  ghost predicate Poisons(t: seq<WinCycle>, t': seq<WinCycle>, portMask: Ports, from: int, target: int, r: int) {
    forall c: int ::
      Get(t', c)
      == if from <= c < target || c == r then Get(t, c).(occUnits := Get(t, c).occUnits + portMask) else Get(t, c)
  }

  lemma FullStays(wc: WinCycle, portMask: Ports)
    requires Avail(wc, portMask) == {}
    ensures wc.(occUnits := wc.occUnits + portMask) == wc
  {
    forall p | p in portMask ensures p in wc.occUnits {
      assert p !in Avail(wc, portMask);
    }
  }

  /** One more shadow reservation of the whole mask. */
  lemma PoisonStep(t: seq<WinCycle>, t1: seq<WinCycle>, t2: seq<WinCycle>, portMask: Ports, from: int, last: int,
                   r: int)
    requires 0 <= from <= last + 1 && PoisonedUpTo(t, t1, portMask, from, last)
    requires FirstFree(t1, if last < from then from else last, portMask, r)
    requires t2 == Put(t1, r, Reserve(Get(t1, r), portMask, false))
    ensures last < r && FirstFree(t, last + 1, portMask, r) && PoisonedUpTo(t, t2, portMask, from, r)
  {
    if from <= last {
      assert Avail(Get(t1, last), portMask) == {};
    }
    forall c: int
      ensures Get(t2, c) == if from <= c <= r then Get(t, c).(occUnits := Get(t, c).occUnits + portMask) else Get(t, c)
    {
      if last < c < r && from <= c {
        FullStays(Get(t, c), portMask);
      }
    }
  }

  lemma PoisonEnd(t: seq<WinCycle>, t': seq<WinCycle>, portMask: Ports, from: int, target: int, last: int)
    requires from <= target <= last && PoisonedUpTo(t, t', portMask, from, last)
    requires FirstFree(t, target, portMask, last)
    ensures Poisons(t, t', portMask, from, target, last)
    ensures forall c | from <= c < target :: Avail(Get(t', c), portMask) == {}
  {
    forall c: int
      ensures Get(t', c) == if from <= c < target || c == last then
                Get(t, c).(occUnits := Get(t, c).occUnits + portMask)
              else Get(t, c)
    {
      if target <= c < last {
        FullStays(Get(t, c), portMask);
      }
    }
  }

  // ---------------------------------------------------------------- every port is given once

  ghost predicate Once(given: seq<(int, int)>) {
    forall i, j | 0 <= i < j < |given| :: given[i] != given[j]
  }

  ghost predicate Account(table: seq<WinCycle>, given: seq<(int, int)>, c: int, p: int) {
    p in Get(table, c).occUnits <==> (c, p) in given
  }

  /** No port is given twice in a cycle, and those taken in a cycle are those that have been given there. */
  ghost predicate GivenOnce(table: seq<WinCycle>, given: seq<(int, int)>) {
    Once(given) && forall c: int, p: int {:trigger Account(table, given, c, p)} :: Account(table, given, c, p)
  }

  /** An instruction takes the lowest port of the mask that has not been given in its cycle, and counts as one more
      there; no other cycle changes. */
  ghost predicate GaveOne(t: seq<WinCycle>, t': seq<WinCycle>, given: seq<(int, int)>, given': seq<(int, int)>,
                          c: int, portMask: Ports) {
    && |given'| == |given| + 1 && given' == given + [(c, given'[|given|].1)]
    && var p := given'[|given|].1;
    && p in portMask && (c, p) !in given && (forall q | q in portMask && q < p :: (c, q) in given)
    && Get(t', c).occUnits == Get(t, c).occUnits + {p} && Get(t', c).count == Get(t, c).count + 1
    && forall d: int | d != c :: Get(t', d) == Get(t, d)
  }

  /** A shadow request takes every port of the mask that has not been given in its cycle, and does not count. */
  ghost predicate GaveAll(t: seq<WinCycle>, t': seq<WinCycle>, given: seq<(int, int)>, given': seq<(int, int)>,
                          c: int, portMask: Ports) {
    && given <= given'
    && (forall x :: x in given' <==> x in given || (x.0 == c && x.1 in portMask))
    && Get(t', c).occUnits == Get(t, c).occUnits + portMask && Get(t', c).count == Get(t, c).count
    && forall d: int | d != c :: Get(t', d) == Get(t, d)
  }

  /** Ports p and up of a set, with their cycle. */
  ghost function Pairs(c: int, ports: Ports, p: int): (r: seq<(int, int)>)
    requires 0 <= p <= 8
    decreases 8 - p
  {
    if p == 8 then [] else (if p in ports then [(c, p)] else []) + Pairs(c, ports, p + 1)
  }

  lemma {:induction false} PairsAre(c: int, ports: Ports, p: int)
    requires 0 <= p <= 8
    ensures forall x :: x in Pairs(c, ports, p) <==> x.0 == c && x.1 in ports && x.1 >= p
    ensures Once(Pairs(c, ports, p))
    decreases 8 - p
  {
    if p < 8 {
      PairsAre(c, ports, p + 1);
      OnceConcat(if p in ports then [(c, p)] else [], Pairs(c, ports, p + 1));
    }
  }

  lemma OnceConcat(a: seq<(int, int)>, b: seq<(int, int)>)
    requires Once(a) && Once(b) && forall x | x in a :: x !in b
    ensures Once(a + b)
  {
    forall i, j | 0 <= i < j < |a + b| ensures (a + b)[i] != (a + b)[j] {
      if i < |a| <= j {
        assert a[i] in a && b[j - |a|] in b;
      }
    }
  }

  ghost function Slots(extra: seq<int>, port: int): seq<(int, int)> {
    seq(|extra|, i requires 0 <= i < |extra| => (extra[i], port))
  }

  /** What an instruction takes in all: in cycle c the lowest port of the mask that has not been given there, and
      the same port in each of the extra cycles. */
  ghost predicate GaveRun(given: seq<(int, int)>, given': seq<(int, int)>, c: int, portMask: Ports, extra: seq<int>) {
    && |given'| > |given| && given <= given'
    && var p := given'[|given|].1;
    && p in portMask && (c, p) !in given && (forall q | q in portMask && q < p :: (c, q) in given)
    && given' == given + [(c, p)] + Slots(extra, p)
  }

  lemma OneSlot(given: seq<(int, int)>, extra: seq<int>, port: int, c: int, wc: WinCycle)
    requires 0 <= port < 8 && Avail(wc, {port}) != {}
    ensures Recorded(given + Slots(extra, port), c, wc, {port}, false) == given + Slots(extra + [c], port)
  {
    assert Avail(wc, {port}) == {port};
    OnePair(c, port, 0);
    assert Slots(extra + [c], port) == Slots(extra, port) + [(c, port)];
  }

  lemma {:induction false} OnePair(c: int, port: int, p: int)
    requires 0 <= p <= 8 && 0 <= port < 8
    ensures Pairs(c, {port}, p) == if p <= port then [(c, port)] else []
    decreases 8 - p
  {
    if p < 8 {
      OnePair(c, port, p + 1);
    }
  }

  /** The record after a reservation in cycle c, whose entry was wc. */
  ghost function Recorded(given: seq<(int, int)>, c: int, wc: WinCycle, portMask: Ports, one: bool): seq<(int, int)>
    requires Avail(wc, portMask) != {}
  {
    given + if one then [(c, SomePort(wc, portMask))] else Pairs(c, Avail(wc, portMask), 0)
  }

  lemma OneGiven(t: seq<WinCycle>, given: seq<(int, int)>, c: int, portMask: Ports)
    requires GivenOnce(t, given) && 0 <= c && Avail(Get(t, c), portMask) != {}
    ensures var wc := Get(t, c);
            var t', given' := Put(t, c, Reserve(wc, portMask, true)), Recorded(given, c, wc, portMask, true);
            GivenOnce(t', given') && GaveOne(t, t', given, given', c, portMask)
  {
    var wc := Get(t, c);
    var t', given' := Put(t, c, Reserve(wc, portMask, true)), Recorded(given, c, wc, portMask, true);
    var p := SomePort(wc, portMask);
    forall q ensures q in wc.occUnits <==> (c, q) in given {
      assert Account(t, given, c, q);
    }
    OnceConcat(given, [(c, p)]);
    forall d: int, q: int ensures Account(t', given', d, q) {
      assert Account(t, given, d, q);
    }
  }

  lemma AllGiven(t: seq<WinCycle>, given: seq<(int, int)>, c: int, portMask: Ports)
    requires GivenOnce(t, given) && 0 <= c && Avail(Get(t, c), portMask) != {}
    ensures var wc := Get(t, c);
            var t', given' := Put(t, c, Reserve(wc, portMask, false)), Recorded(given, c, wc, portMask, false);
            GivenOnce(t', given') && GaveAll(t, t', given, given', c, portMask)
  {
    var wc := Get(t, c);
    var t', given' := Put(t, c, Reserve(wc, portMask, false)), Recorded(given, c, wc, portMask, false);
    var more := Pairs(c, Avail(wc, portMask), 0);
    PairsAre(c, Avail(wc, portMask), 0);
    forall q ensures q in wc.occUnits <==> (c, q) in given {
      assert Account(t, given, c, q);
    }
    forall x | x in given ensures x !in more {
      assert x == (x.0, x.1);
    }
    OnceConcat(given, more);
    forall d: int, q: int ensures Account(t', given', d, q) {
      MoreAccount(t, given, more, c, portMask, d, q);
    }
    forall x ensures x in given' <==> x in given || (x.0 == c && x.1 in portMask) {
      assert x == (x.0, x.1);
      assert x in given' <==> x in given || x in more;
    }
  }

  lemma MoreAccount(t: seq<WinCycle>, given: seq<(int, int)>, more: seq<(int, int)>, c: int, portMask: Ports, d: int,
                    q: int)
    requires GivenOnce(t, given) && 0 <= c && Avail(Get(t, c), portMask) != {}
    requires (d, q) in more <==> d == c && q in Avail(Get(t, c), portMask)
    ensures Account(Put(t, c, Reserve(Get(t, c), portMask, false)), given + more, d, q)
  {
    assert Account(t, given, d, q);
    assert (d, q) in given + more <==> (d, q) in given || (d, q) in more;
  }

  class WindowStructure {
    var curWin: array<WinCycle>
    var nextWin: array<WinCycle>
    var ubWin: seq<(int, WinCycle)>
    var occupancy: int
    var curPos: int
    var lastPort: int
    const H: int
    const WSZ: int
    /** The cycle at which the current window starts, and the table of all cycles. */
    ghost var base: int
    ghost var table: seq<WinCycle>
    /** The ports given so far, each with its cycle. */
    ghost var given: seq<(int, int)>

    /** The structure stands at cycle curCycle, which its users hold; a cycle's ports are taken exactly if they have
        been given, and none has been given twice. */
    ghost predicate Valid(curCycle: int)
      reads this, curWin, nextWin
    {
      Tiers(curCycle) && GivenOnce(table, given)
    }

    ghost predicate Tiers(curCycle: int)
      reads this, curWin, nextWin
    {
      && H >= 1 && WSZ >= 1 && curWin != nextWin && curWin.Length == nextWin.Length == H
      && 0 <= curPos < H && base >= 0 && curCycle == base + curPos
      && Refines(curWin[..], nextWin[..], ubWin, base, curCycle, table)
      && occupancy == Sum(table, curCycle) && occupancy <= WSZ
    }

    constructor (h: int, wsz: int)
      requires h >= 1 && wsz >= 1
      ensures Valid(0) && fresh(curWin) && fresh(nextWin)
      ensures H == h && WSZ == wsz && table == [] && given == []
    {
      H, WSZ := h, wsz;
      curWin := new WinCycle[h](_ => NONE);
      nextWin := new WinCycle[h](_ => NONE);
      ubWin, occupancy, curPos, lastPort := [], 0, 0, 0;
      base, table, given := 0, [], [];
    }

    /** Time moves on by one cycle. The table stays as it is. */
    method AdvancePos(curCycle: int) returns (curCycle': int)
      requires Valid(curCycle)
      modifies this`curWin, this`nextWin, this`ubWin, this`occupancy, this`curPos, this`base, curWin, nextWin
      ensures Valid(curCycle') && curCycle' == curCycle + 1
      ensures {curWin, nextWin} == old({curWin, nextWin})
    {
      PassCycle(curWin[..], nextWin[..], ubWin, base, curCycle, table, curWin[..][curPos := NONE]);
      assert curWin[curPos] == Get(table, curCycle) by {
        assert At(curWin[..], nextWin[..], ubWin, base, curCycle) == Get(table, curCycle);
      }
      occupancy := occupancy - curWin[curPos].count;
      curWin[curPos] := NONE;
      assert curWin[..] == old(curWin[..])[curPos := NONE];
      curPos := curPos + 1;
      curCycle' := curCycle + 1;
      if curPos == H {
        Rebase(curCycle');
      }
    }

    /** The next window becomes the current one, and the map's cycles that are now in reach move in. */
    method Rebase(curCycle: int)
      requires H >= 1 && curWin != nextWin && curWin.Length == nextWin.Length == H && base >= 0
      requires curCycle == base + H && curPos == H
      requires Refines(curWin[..], nextWin[..], ubWin, base, curCycle, table)
      modifies this`curWin, this`nextWin, this`ubWin, this`curPos, this`base, curWin, nextWin
      ensures {curWin, nextWin} == old({curWin, nextWin}) && curWin != nextWin && curWin.Length == nextWin.Length == H
      ensures curPos == 0 && base == curCycle
      ensures Refines(curWin[..], nextWin[..], ubWin, base, curCycle, table)
    {
      curWin, nextWin := nextWin, curWin;
      curPos := 0;
      var it := FillNext(curCycle);
      MovedIn(old(curWin[..]), old(nextWin[..]), ubWin, old(base), curCycle, table, nextWin[..], it);
      ubWin := ubWin[it..];
      base := curCycle;
    }

    /** Copies the map's first cycles, up to the end of the next window, into the window. */
    method FillNext(curCycle: int) returns (it: int)
      requires H >= 1 && nextWin.Length == H && Sorted(ubWin)
      requires forall k | 0 <= k < H :: nextWin[k] == NONE
      requires forall i | 0 <= i < |ubWin| :: ubWin[i].0 >= curCycle + H
      modifies nextWin
      ensures 0 <= it <= |ubWin|
      ensures forall i | 0 <= i < it :: ubWin[i].0 < curCycle + 2 * H
      ensures it < |ubWin| ==> ubWin[it].0 >= curCycle + 2 * H
      ensures forall k | 0 <= k < H :: nextWin[k] == FirstEntries(ubWin, it, curCycle + H + k)
    {
      var nextWinHorizon := curCycle + 2 * H;
      it := 0;
      while it < |ubWin| && ubWin[it].0 < nextWinHorizon
        invariant 0 <= it <= |ubWin|
        invariant forall i | 0 <= i < it :: ubWin[i].0 < nextWinHorizon
        invariant forall k | 0 <= k < H :: nextWin[k] == FirstEntries(ubWin, it, curCycle + H + k)
      {
        var nextWinPos := ubWin[it].0 - H - curCycle;
        assert 0 <= nextWinPos < H;
        UbAt(ubWin, it);
        nextWin[nextWinPos] := ubWin[it].1;
        it := it + 1;
      }
    }

    lemma PassCycle(cur: seq<WinCycle>, next: seq<WinCycle>, ub: seq<(int, WinCycle)>, b: int, now: int,
                    t: seq<WinCycle>, cur': seq<WinCycle>)
      requires |cur| == |next| && b <= now < b + |cur|
      requires Refines(cur, next, ub, b, now, t) && cur' == cur[now - b := NONE]
      ensures Refines(cur', next, ub, b, now + 1, t)
    {
      var n := now + 1;
      forall c | n <= c ensures At(cur', next, ub, b, c) == Get(t, c) {
        assert At(cur, next, ub, b, c) == Get(t, c);
      }
    }

    lemma MovedIn(cur: seq<WinCycle>, next: seq<WinCycle>, ub: seq<(int, WinCycle)>, b: int, now: int,
                  t: seq<WinCycle>, moved: seq<WinCycle>, it: int)
      requires |cur| == |next| == |moved| && now == b + |cur|
      requires Refines(cur, next, ub, b, now, t)
      requires 0 <= it <= |ub| && (forall i | 0 <= i < it :: ub[i].0 < now + 2 * |cur|)
      requires it < |ub| ==> ub[it].0 >= now + 2 * |cur|
      requires forall k | 0 <= k < |moved| :: moved[k] == FirstEntries(ub, it, now + |cur| + k)
      ensures Refines(next, moved, ub[it..], now, now, t)
    {
      assert ub == ub[..it] + ub[it..];
      forall c | now <= c ensures At(next, moved, ub[it..], now, c) == Get(t, c) {
        assert At(cur, next, ub, b, c) == Get(t, c);
        if c < now + |cur| {
        } else if c < now + 2 * |cur| {
          if forall i | 0 <= i < it :: ub[i].0 != c {
            UbAbsent(ub, c);
          }
        } else {
          UbConcat(ub[..it], ub[it..], c);
        }
      }
    }

    /** The entry of cycle c, whichever tier holds it, is set to wc. */
    lemma StoredNear(cur: seq<WinCycle>, next: seq<WinCycle>, ub: seq<(int, WinCycle)>, b: int, now: int,
                     t: seq<WinCycle>, c: int, wc: WinCycle)
      requires |cur| == |next| && 0 <= b <= now <= c < b + 2 * |cur|
      requires Refines(cur, next, ub, b, now, t)
      ensures c < b + |cur| ==> Refines(cur[c - b := wc], next, ub, b, now, Put(t, c, wc))
      ensures c >= b + |cur| ==> Refines(cur, next[c - b - |cur| := wc], ub, b, now, Put(t, c, wc))
    {
      var cur' := if c < b + |cur| then cur[c - b := wc] else cur;
      var next' := if c < b + |cur| then next else next[c - b - |cur| := wc];
      forall d | now <= d ensures At(cur', next', ub, b, d) == Get(Put(t, c, wc), d) {
        assert At(cur, next, ub, b, d) == Get(t, d);
      }
    }

    lemma StoredFar(cur: seq<WinCycle>, next: seq<WinCycle>, ub: seq<(int, WinCycle)>, at: int, b: int, now: int,
                    t: seq<WinCycle>, c: int, wc: WinCycle)
      requires |cur| == |next| && 0 <= b <= now <= c && b + 2 * |cur| <= c
      requires Refines(cur, next, ub, b, now, t)
      requires 0 <= at <= |ub| && (forall i | 0 <= i < at :: ub[i].0 < c) && (forall i | at <= i < |ub| :: ub[i].0 >= c)
      ensures Refines(cur, next, UbSet(ub, at, c, wc), b, now, Put(t, c, wc))
    {
      var ub' := UbSet(ub, at, c, wc);
      UbSetSorted(ub, at, c, wc, b + 2 * |cur|);
      forall d | now <= d ensures At(cur, next, ub', b, d) == Get(Put(t, c, wc), d) {
        assert At(cur, next, ub, b, d) == Get(t, d);
        UbSetGet(ub, at, c, wc, d);
      }
    }

    /** Reserves the first cycle from the requested one on that has a free port of the mask. Only when the
        window is full does time move on, and only until it is not.
     */
    method ScheduleInternal(curCycle: int, schedCycle: int, portMask: Ports, touchOccupancy: bool, recordPort: bool)
      returns (curCycle': int, schedCycle': int)
      requires Valid(curCycle) && portMask != {}
      modifies this`curWin, this`nextWin, this`ubWin, this`occupancy, this`curPos, this`base, this`table, this`lastPort
      modifies this`given, curWin, nextWin
      ensures Valid(curCycle') && {curWin, nextWin} == old({curWin, nextWin})
      ensures curCycle <= curCycle' && (!touchOccupancy ==> curCycle' == curCycle)
      ensures touchOccupancy ==> forall c | curCycle <= c < curCycle' :: Sum(old(table), c) == WSZ
      ensures FirstFree(old(table), if schedCycle > curCycle' then schedCycle else curCycle', portMask, schedCycle')
      ensures table == Put(old(table), schedCycle', Reserve(Get(old(table), schedCycle'), portMask, touchOccupancy))
      ensures touchOccupancy && recordPort ==> lastPort == SomePort(Get(old(table), schedCycle'), portMask)
      ensures !recordPort ==> lastPort == old(lastPort)
      ensures given == Recorded(old(given), schedCycle', Get(old(table), schedCycle'), portMask, touchOccupancy)
      ensures touchOccupancy ==> GaveOne(old(table), table, old(given), given, schedCycle', portMask)
      ensures !touchOccupancy ==> GaveAll(old(table), table, old(given), given, schedCycle', portMask)
    {
      curCycle' := curCycle;
      if touchOccupancy {
        curCycle' := Drain(curCycle);
      }
      var delay := if schedCycle > curCycle' then schedCycle - curCycle' else 0;
      ghost var before := table;
      schedCycle' := Place(curCycle', delay, portMask, touchOccupancy, recordPort);
      Record(before, schedCycle', portMask, touchOccupancy);
    }

    /** Enters what a reservation has taken in the record. */
    ghost method Record(before: seq<WinCycle>, c: int, portMask: Ports, one: bool)
      requires GivenOnce(before, given) && 0 <= c && Avail(Get(before, c), portMask) != {}
      requires table == Put(before, c, Reserve(Get(before, c), portMask, one))
      modifies this`given
      ensures given == Recorded(old(given), c, Get(before, c), portMask, one) && GivenOnce(table, given)
      ensures one ==> GaveOne(before, table, old(given), given, c, portMask)
      ensures !one ==> GaveAll(before, table, old(given), given, c, portMask)
    {
      if one {
        OneGiven(before, given, c, portMask);
      } else {
        AllGiven(before, given, c, portMask);
      }
      given := Recorded(given, c, Get(before, c), portMask, one);
    }

    /** Passes full cycles until the window has room for one more reservation. */
    method Drain(curCycle: int) returns (curCycle': int)
      requires Valid(curCycle)
      modifies this`curWin, this`nextWin, this`ubWin, this`occupancy, this`curPos, this`base, curWin, nextWin
      ensures Valid(curCycle') && curCycle <= curCycle' && occupancy < WSZ
      ensures {curWin, nextWin} == old({curWin, nextWin})
      ensures forall c | curCycle <= c < curCycle' :: Sum(table, c) == WSZ
    {
      curCycle' := curCycle;
      while occupancy == WSZ
        invariant Valid(curCycle') && curCycle <= curCycle' && {curWin, nextWin} == old({curWin, nextWin})
        invariant forall c | curCycle <= c < curCycle' :: Sum(table, c) == WSZ
        decreases |table| - curCycle'
      {
        curCycle' := AdvancePos(curCycle');
      }
    }

    /** Finds the slot, progressively increasing the delay, and reserves it. */
    method Place(curCycle: int, delay: int, portMask: Ports, touchOccupancy: bool, recordPort: bool)
      returns (schedCycle: int)
      requires Tiers(curCycle) && portMask != {} && delay >= 0 && (touchOccupancy ==> occupancy < WSZ)
      modifies this`ubWin, this`occupancy, this`table, this`lastPort, curWin, nextWin
      ensures Tiers(curCycle)
      ensures FirstFree(old(table), curCycle + delay, portMask, schedCycle)
      ensures table == Put(old(table), schedCycle, Reserve(Get(old(table), schedCycle), portMask, touchOccupancy))
      ensures touchOccupancy && recordPort ==> lastPort == SomePort(Get(old(table), schedCycle), portMask)
      ensures !recordPort ==> lastPort == old(lastPort)
    {
      var pos := FirstIn(curWin, curPos + delay, portMask);
      SkippedIn(curWin[..], nextWin[..], ubWin, curCycle, table, curPos + delay, pos, portMask);
      if pos < H {
        schedCycle := curCycle + (pos - curPos);
        ReserveNear(curCycle, schedCycle, curWin, pos, portMask, touchOccupancy, recordPort);
      } else {
        var nextWinPos := FirstIn(nextWin, pos - H, portMask);
        SkippedIn(curWin[..], nextWin[..], ubWin, curCycle, table, pos, nextWinPos + H, portMask);
        schedCycle := curCycle + (nextWinPos + H - curPos);
        if nextWinPos < H {
          ReserveNear(curCycle, schedCycle, nextWin, nextWinPos, portMask, touchOccupancy, recordPort);
        } else {
          schedCycle := ReserveFar(curCycle, schedCycle, portMask, touchOccupancy, recordPort);
        }
      }
    }

    /** Positions found taken in the two windows are cycles without a free port in the table. */
    lemma SkippedIn(cur: seq<WinCycle>, next: seq<WinCycle>, ub: seq<(int, WinCycle)>, now: int, t: seq<WinCycle>,
                    from: int, to: int, portMask: Ports)
      requires |cur| == |next| == H && base <= now <= base + from && from <= to
      requires Refines(cur, next, ub, base, now, t)
      requires to <= 2 * H || to == from
      requires forall k | from <= k < to && k < H :: Avail(cur[k], portMask) == {}
      requires forall k | 0 <= k < H && from <= k + H < to :: Avail(next[k], portMask) == {}
      ensures forall c | base + from <= c < base + to :: Avail(Get(t, c), portMask) == {}
      ensures to < H ==> cur[to] == Get(t, base + to)
      ensures H <= to < 2 * H ==> next[to - H] == Get(t, base + to)
    {
      forall c | base + from <= c < base + to ensures Avail(Get(t, c), portMask) == {} {
        assert At(cur, next, ub, base, c) == Get(t, c);
        assert c - base < H ==> At(cur, next, ub, base, c) == cur[c - base];
        assert c - base >= H ==> At(cur, next, ub, base, c) == next[c - base - H];
      }
      assert At(cur, next, ub, base, base + to) == Get(t, base + to);
    }

    /** The first position of a window from `from` on with a free port of the mask; at least H if there is none. */
    method FirstIn(win: array<WinCycle>, from: int, portMask: Ports) returns (pos: int)
      requires win.Length == H && from >= 0
      ensures from <= pos && (pos < H ==> Avail(win[pos], portMask) != {}) && (pos > from ==> pos <= H)
      ensures forall k | from <= k < pos :: Avail(win[k], portMask) == {}
    {
      pos := from;
      while pos < H && Avail(win[pos], portMask) == {}
        invariant from <= pos && (pos > from ==> pos <= H)
        invariant forall k | from <= k < pos :: Avail(win[k], portMask) == {}
      {
        pos := pos + 1;
      }
    }

    /** trySchedule on a window entry that has a free port. */
    method ReserveNear(curCycle: int, schedCycle: int, win: array<WinCycle>, pos: int, portMask: Ports,
                       touchOccupancy: bool, recordPort: bool)
      requires Tiers(curCycle) && (touchOccupancy ==> occupancy < WSZ)
      requires (win == curWin && schedCycle == base + pos && curPos <= pos)
        || (win == nextWin && schedCycle == base + H + pos)
      requires 0 <= pos < H && win[pos] == Get(table, schedCycle) && Avail(win[pos], portMask) != {}
      modifies this`occupancy, this`table, this`lastPort, win
      ensures Tiers(curCycle)
      ensures table == Put(old(table), schedCycle, Reserve(Get(old(table), schedCycle), portMask, touchOccupancy))
      ensures touchOccupancy && recordPort ==> lastPort == SomePort(Get(old(table), schedCycle), portMask)
      ensures !recordPort ==> lastPort == old(lastPort)
    {
      var wc := win[pos];
      if recordPort && touchOccupancy {
        lastPort := SomePort(wc, portMask);
      }
      StoreNear(curCycle, schedCycle, win, pos, Reserve(wc, portMask, touchOccupancy));
      if touchOccupancy {
        occupancy := occupancy + 1;
      }
    }

    method StoreNear(curCycle: int, schedCycle: int, win: array<WinCycle>, pos: int, wc: WinCycle)
      requires H >= 1 && curWin != nextWin && curWin.Length == nextWin.Length == H
      requires 0 <= curPos < H && base >= 0 && curCycle == base + curPos
      requires Refines(curWin[..], nextWin[..], ubWin, base, curCycle, table)
      requires (win == curWin && schedCycle == base + pos && curPos <= pos)
        || (win == nextWin && schedCycle == base + H + pos)
      requires 0 <= pos < H
      modifies this`table, win
      ensures Refines(curWin[..], nextWin[..], ubWin, base, curCycle, table)
      ensures table == Put(old(table), schedCycle, wc)
      ensures Sum(table, curCycle) == Sum(old(table), curCycle) + wc.count - Get(old(table), schedCycle).count
    {
      StoredNear(curWin[..], nextWin[..], ubWin, base, curCycle, table, schedCycle, wc);
      SumOfPut(table, curCycle, schedCycle, wc);
      ghost var cur, next := curWin[..], nextWin[..];
      win[pos] := wc;
      table := Put(table, schedCycle, wc);
      if win == curWin {
        assert curWin[..] == cur[pos := wc];
        assert nextWin[..] == next;
      } else {
        assert curWin[..] == cur;
        assert nextWin[..] == next[pos := wc];
      }
    }

    /** The search through the ordered map, from a cycle beyond both windows on. */
    method ReserveFar(curCycle: int, from: int, portMask: Ports, touchOccupancy: bool, recordPort: bool)
      returns (schedCycle: int)
      requires Tiers(curCycle) && (touchOccupancy ==> occupancy < WSZ)
      requires from >= base + 2 * H && portMask != {}
      modifies this`ubWin, this`occupancy, this`table, this`lastPort
      ensures Tiers(curCycle)
      ensures FirstFree(old(table), from, portMask, schedCycle)
      ensures table == Put(old(table), schedCycle, Reserve(Get(old(table), schedCycle), portMask, touchOccupancy))
      ensures touchOccupancy && recordPort ==> lastPort == SomePort(Get(old(table), schedCycle), portMask)
      ensures !recordPort ==> lastPort == old(lastPort)
    {
      var it, wc;
      schedCycle, it, wc := FindFar(curCycle, from, portMask);
      if recordPort && touchOccupancy {
        lastPort := SomePort(wc, portMask);
      }
      StoredFar(curWin[..], nextWin[..], ubWin, it, base, curCycle, table, schedCycle,
        Reserve(wc, portMask, touchOccupancy));
      SumOfPut(table, curCycle, schedCycle, Reserve(wc, portMask, touchOccupancy));
      ubWin := UbSet(ubWin, it, schedCycle, Reserve(wc, portMask, touchOccupancy));
      table := Put(table, schedCycle, Reserve(wc, portMask, touchOccupancy));
      if touchOccupancy {
        occupancy := occupancy + 1;
      }
    }

    method FindFar(curCycle: int, from: int, portMask: Ports) returns (schedCycle: int, it: int, wc: WinCycle)
      requires Tiers(curCycle) && from >= base + 2 * H && portMask != {}
      ensures FirstFree(table, from, portMask, schedCycle) && wc == Get(table, schedCycle)
      ensures 0 <= it <= |ubWin| && (forall i | 0 <= i < it :: ubWin[i].0 < schedCycle)
      ensures forall i | it <= i < |ubWin| :: ubWin[i].0 >= schedCycle
    {
      forall c | from <= c ensures UbGet(ubWin, c) == Get(table, c) {
        assert At(curWin[..], nextWin[..], ubWin, base, c) == Get(table, c);
      }
      schedCycle := from;
      it := LowerBound(from);
      while it < |ubWin| && ubWin[it].0 == schedCycle && Avail(ubWin[it].1, portMask) == {}
        invariant 0 <= it <= |ubWin| && from <= schedCycle
        invariant forall i | 0 <= i < it :: ubWin[i].0 < schedCycle
        invariant forall i | it <= i < |ubWin| :: ubWin[i].0 >= schedCycle
        invariant forall c | from <= c < schedCycle :: Avail(Get(table, c), portMask) == {}
        decreases |ubWin| - it
      {
        UbAt(ubWin, it);
        it := it + 1;
        schedCycle := schedCycle + 1;
      }
      wc := NONE;
      if it < |ubWin| && ubWin[it].0 == schedCycle {
        UbAt(ubWin, it);
        wc := ubWin[it].1;
      } else {
        UbAbsent(ubWin, schedCycle);
      }
    }

    method LowerBound(c: int) returns (it: int)
      requires Sorted(ubWin)
      ensures 0 <= it <= |ubWin|
      ensures (forall i | 0 <= i < it :: ubWin[i].0 < c) && (forall i | it <= i < |ubWin| :: ubWin[i].0 >= c)
    {
      it := 0;
      while it < |ubWin| && ubWin[it].0 < c
        invariant 0 <= it <= |ubWin|
        invariant forall i | 0 <= i < it :: ubWin[i].0 < c
      {
        it := it + 1;
      }
    }

    /** An instruction's reservation, and shadow reservations of the same port for the extra cycles it keeps
        the port: the next ones at which that port is free.
     */
    method Schedule(curCycle: int, schedCycle: int, portMask: Ports, extraSlots: nat)
      returns (curCycle': int, schedCycle': int, ghost extra: seq<int>)
      requires Valid(curCycle) && portMask != {}
      modifies this`curWin, this`nextWin, this`ubWin, this`occupancy, this`curPos, this`base, this`table, this`lastPort
      modifies this`given, curWin, nextWin
      ensures Valid(curCycle') && curCycle <= curCycle'
      ensures forall c | curCycle <= c < curCycle' :: Sum(old(table), c) == WSZ
      ensures FirstFree(old(table), if schedCycle > curCycle' then schedCycle else curCycle', portMask, schedCycle')
      ensures |extra| == extraSlots
      ensures var wc := Get(old(table), schedCycle');
        AddsPort(Put(old(table), schedCycle', Reserve(wc, portMask, true)), table,
                 schedCycle', SomePort(wc, portMask), extra)
      ensures GaveRun(old(given), given, schedCycle', portMask, extra)
      ensures forall c: int ::
                Get(table, c).count == Get(old(table), c).count + if c == schedCycle' then 1 else 0
    {
      extra := [];
      if extraSlots == 0 {
        curCycle', schedCycle' := ScheduleInternal(curCycle, schedCycle, portMask, true, false);
      } else {
        curCycle', schedCycle' := ScheduleInternal(curCycle, schedCycle, portMask, true, true);
        extra := ShadowSlots(curCycle', schedCycle', extraSlots);
      }
    }

    /** Reserves the last used port at its next free cycles. */
    method ShadowSlots(curCycle: int, schedCycle: int, extraSlots: nat) returns (ghost extra: seq<int>)
      requires Valid(curCycle) && 0 <= lastPort < 8 && 0 <= curCycle <= schedCycle
      modifies this`curWin, this`nextWin, this`ubWin, this`occupancy, this`curPos, this`base, this`table, this`lastPort
      modifies this`given, curWin, nextWin
      ensures Valid(curCycle) && |extra| == extraSlots
      ensures AddsPort(old(table), table, schedCycle, old(lastPort), extra)
      ensures given == old(given) + Slots(extra, old(lastPort))
    {
      extra := [];
      var extraSlotCycle := schedCycle + 1;
      var extraSlotPortMask := {lastPort};
      for i := 0 to extraSlots
        invariant Valid(curCycle) && {curWin, nextWin} == old({curWin, nextWin})
        invariant extraSlotPortMask == {lastPort} && lastPort == old(lastPort)
        invariant |extra| == i && extraSlotCycle == (if i == 0 then schedCycle else extra[i - 1]) + 1
        invariant extraSlotCycle > curCycle
        invariant AddsPort(old(table), table, schedCycle, lastPort, extra)
        invariant given == old(given) + Slots(extra, lastPort)
      {
        ghost var before := table;
        var c;
        c, extraSlotCycle := ScheduleInternal(curCycle, extraSlotCycle, extraSlotPortMask, false, false);
        AddsOneMore(old(table), before, table, schedCycle, lastPort, extra, extraSlotCycle);
        OneSlot(old(given), extra, lastPort, extraSlotCycle, Get(before, extraSlotCycle));
        extra := extra + [extraSlotCycle];
        extraSlotCycle := extraSlotCycle + 1;
      }
    }

    /** Takes every port of the mask in all cycles from curCycle up to the target. */
    method PoisonRange(curCycle: int, targetCycle: int, portMask: Ports)
      requires Valid(curCycle) && portMask != {}
      modifies this`curWin, this`nextWin, this`ubWin, this`occupancy, this`curPos, this`base, this`table, this`lastPort
      modifies this`given, curWin, nextWin
      ensures Valid(curCycle)
      ensures forall c | curCycle <= c < targetCycle :: portMask <= Get(table, c).occUnits
      // The loop ends only after a reservation at or beyond the target, so one such cycle is taken as well.
      ensures if curCycle < targetCycle then
          exists r :: FirstFree(old(table), targetCycle, portMask, r)
            && Poisons(old(table), table, portMask, curCycle, targetCycle, r)
        else table == old(table)
    {
      var poisonCycle := curCycle;
      ghost var last := curCycle - 1;
      while poisonCycle < targetCycle
        invariant Valid(curCycle) && {curWin, nextWin} == old({curWin, nextWin})
        invariant curCycle <= last + 1 && poisonCycle == if last < curCycle then curCycle else last
        invariant PoisonedUpTo(old(table), table, portMask, curCycle, last) && (last < curCycle ==> table == old(table))
        invariant curCycle <= last && targetCycle <= last ==> FirstFree(old(table), targetCycle, portMask, last)
        invariant targetCycle <= curCycle ==> last < curCycle
        decreases targetCycle - last
      {
        ghost var t1 := table;
        var c;
        c, poisonCycle := ScheduleInternal(curCycle, poisonCycle, portMask, false, false);
        PoisonStep(old(table), t1, table, portMask, curCycle, last, poisonCycle);
        last := poisonCycle;
      }
      if curCycle < targetCycle {
        PoisonEnd(old(table), table, portMask, curCycle, targetCycle, last);
      }
    }
  }
}
