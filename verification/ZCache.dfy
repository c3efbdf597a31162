/** The zcache array. A line's address may sit at one position per way, chosen by that way's hash. An
    indirection table maps positions to line ids, so that a replacement that has to move lines only moves
    table entries. A breadth-first walk collects candidates to replace; the chain from the chosen one back
    to a seed says which entries to move.
 */
module ZCache {
  import opened Arith

  datatype ZWalkInfo = ZWalkInfo(pos: int, lineId: int, parentIdx: int)

  /** The size of one array, the position that each way offers to each address, and each position's way. */
  datatype Geometry = Geometry(numLines: nat, ways: nat, cands: nat, pos: (int, int) -> int, way: int -> int) {
    ghost predicate Ok() {
      && ways >= 2 && cands >= ways
      && forall w, a :: 0 <= w < ways ==> 0 <= pos(w, a) < numLines && way(pos(w, a)) == w
    }
  }

  /** The geometry of ways blocks of numSets positions each, with one hash per way. */
  function Skewed(numSets: nat, ways: nat, cands: nat, hash: (int, int) -> nat): (g: Geometry)
    requires numSets >= 1
  {
    Geometry(ways * numSets, ways, cands, (w, a) => w * numSets + hash(w, a) % numSets, p => p / numSets)
  }

  lemma SkewedOk(numSets: nat, ways: nat, cands: nat, hash: (int, int) -> nat)
    requires numSets >= 1 && ways >= 2 && cands >= ways
    ensures Skewed(numSets, ways, cands, hash).Ok()
  {
    var g := Skewed(numSets, ways, cands, hash);
    forall w, a | 0 <= w < ways ensures 0 <= g.pos(w, a) < g.numLines && g.way(g.pos(w, a)) == w {
      InBlock(numSets, w, hash(w, a));
      BlockBefore(numSets, w, ways, hash(w, a) % numSets);
      DivIs(g.pos(w, a), numSets, w);
    }
  }

  lemma InBlock(n: int, w: int, h: int)
    requires n >= 1 && w >= 0
    ensures 0 <= w * n <= w * n + h % n && 0 <= h % n < n
  {
    ModBounds(h, n);
    MulMono(n, 0, w);
  }

  // ---------------------------------------------------------------- the table

  /** posOf inverts lookup: each position has one line id and each line id one position. */
  ghost predicate Inverse(lookup: seq<int>, posOf: seq<int>) {
    && |lookup| == |posOf|
    && (forall p | 0 <= p < |lookup| :: 0 <= lookup[p] < |lookup| && posOf[lookup[p]] == p)
    && (forall l | 0 <= l < |posOf| :: 0 <= posOf[l] < |lookup| && lookup[posOf[l]] == l)
  }

  ghost predicate AtSomeWay(g: Geometry, p: int, a: int)
    requires g.Ok()
  {
    0 <= g.way(p) < g.ways && p == g.pos(g.way(p), a)
  }

  ghost predicate NoRepeats(addrs: seq<int>) {
    forall l, l' | 0 <= l < l' < |addrs| && addrs[l] != 0 :: addrs[l] != addrs[l']
  }

  /** Every stored address sits at one of its own positions, and none is stored twice. Address 0 is no address. */
  ghost predicate Placed(g: Geometry, addrs: seq<int>, posOf: seq<int>)
    requires g.Ok() && |addrs| == |posOf|
  {
    && (forall l | 0 <= l < |addrs| && addrs[l] != 0 :: AtSomeWay(g, posOf[l], addrs[l]))
    && NoRepeats(addrs)
  }

  ghost predicate TableOk(g: Geometry, lookup: seq<int>, addrs: seq<int>, posOf: seq<int>) {
    && g.Ok()
    && |lookup| == |addrs| == g.numLines
    && Inverse(lookup, posOf)
    && Placed(g, addrs, posOf)
  }

  // ---------------------------------------------------------------- the walk

  /** The candidates collected so far: the seeds of address a, then the children of every candidate before
      fringe, in the order of their parents.
   */
  ghost predicate WalkOk(g: Geometry, lookup: seq<int>, addrs: seq<int>, a: int, cs: seq<ZWalkInfo>, fringe: int)
    requires g.Ok() && |lookup| == |addrs|
  {
    && 0 <= fringe && |cs| >= g.ways
    && (forall i | 0 <= i < |cs| :: CandOk(g, lookup, addrs, a, cs, i))
    && (forall i, j | 0 <= i <= j < |cs| :: cs[i].parentIdx <= cs[j].parentIdx)
    && (forall i | 0 <= i < |cs| :: cs[i].parentIdx < fringe)
    && (forall e | 0 <= e < fringe :: Expanded(g, addrs, cs, e))
  }

  ghost predicate CandOk(g: Geometry, lookup: seq<int>, addrs: seq<int>, a: int, cs: seq<ZWalkInfo>, i: int)
    requires g.Ok() && |lookup| == |addrs| && 0 <= i < |cs|
  {
    && 0 <= cs[i].pos < |lookup|
    && cs[i].lineId == lookup[cs[i].pos]
    && 0 <= cs[i].lineId < |addrs|
    && if i < g.ways then
         cs[i].parentIdx == -1 && cs[i].pos == g.pos(i, a)
       else
         && 0 <= cs[i].parentIdx <= i - g.ways
         && cs[cs[i].parentIdx].lineId != cs[i].lineId
         && 0 <= cs[cs[i].parentIdx].lineId < |addrs|
         && addrs[cs[cs[i].parentIdx].lineId] != 0
         && AtSomeWay(g, cs[i].pos, addrs[cs[cs[i].parentIdx].lineId])
  }

  /** Every other position of candidate e's address is among e's children. */
  ghost predicate Expanded(g: Geometry, addrs: seq<int>, cs: seq<ZWalkInfo>, e: int)
    requires g.Ok()
  {
    && 0 <= e < |cs| && 0 <= cs[e].lineId < |addrs|
    && forall w | 0 <= w < g.ways :: ChildAt(g, addrs, cs, e, w)
  }

  ghost predicate ChildAt(g: Geometry, addrs: seq<int>, cs: seq<ZWalkInfo>, e: int, w: int)
    requires g.Ok() && 0 <= e < |cs| && 0 <= cs[e].lineId < |addrs|
  {
    var p := g.pos(w, addrs[cs[e].lineId]);
    p == cs[e].pos || exists j :: 0 <= j < |cs| && cs[j].parentIdx == e && cs[j].pos == p
  }

  ghost predicate First(cs: seq<ZWalkInfo>, i: int)
    requires 0 <= i < |cs|
  {
    forall j | 0 <= j < i :: cs[j].lineId != cs[i].lineId
  }

  /** If a candidate is the first one for its line, so is its parent: an earlier candidate for the parent's
      line would have been expanded earlier, into the same positions.
   */
  lemma FirstParent(g: Geometry, lookup: seq<int>, addrs: seq<int>, a: int, cs: seq<ZWalkInfo>, fringe: int, i: int)
    requires g.Ok() && |lookup| == |addrs|
    requires WalkOk(g, lookup, addrs, a, cs, fringe)
    requires g.ways <= i < |cs| && First(cs, i)
    ensures 0 <= cs[i].parentIdx < i && First(cs, cs[i].parentIdx)
  {
    assert CandOk(g, lookup, addrs, a, cs, i);
    var m := cs[i].parentIdx;
    if e :| 0 <= e < m && cs[e].lineId == cs[m].lineId {
      assert Expanded(g, addrs, cs, e);
      assert CandOk(g, lookup, addrs, a, cs, e);
      var w := g.way(cs[i].pos);
      assert ChildAt(g, addrs, cs, e, w);
      var j :| 0 <= j < |cs| && cs[j].parentIdx == e && cs[j].pos == cs[i].pos;
      EarlierParent(g, lookup, addrs, a, cs, fringe, j, i);
    }
  }

  lemma EarlierParent(g: Geometry, lookup: seq<int>, addrs: seq<int>, a: int, cs: seq<ZWalkInfo>, fringe: int, j: int,
                      i: int)
    requires g.Ok() && |lookup| == |addrs|
    requires WalkOk(g, lookup, addrs, a, cs, fringe)
    requires 0 <= i < |cs| && 0 <= j < |cs| && cs[j].parentIdx < cs[i].parentIdx
    ensures j < i && CandOk(g, lookup, addrs, a, cs, j)
  {
  }

  /** The positions from candidate idx back to its seed. */
  ghost function Chain(cs: seq<ZWalkInfo>, idx: int): seq<int>
    requires -1 <= idx < |cs|
    requires forall i | 0 <= i < |cs| :: -1 <= cs[i].parentIdx < i
    decreases idx
  {
    if idx == -1 then [] else [cs[idx].pos] + Chain(cs, cs[idx].parentIdx)
  }

  lemma ChainUnfolds(cs: seq<ZWalkInfo>, done: seq<int>, idx: int)
    requires 0 <= idx < |cs|
    requires forall i | 0 <= i < |cs| :: -1 <= cs[i].parentIdx < i
    ensures done + Chain(cs, idx) == done + [cs[idx].pos] + Chain(cs, cs[idx].parentIdx)
  {
  }

  /** A chain to move along: distinct positions, each holding a line that may also sit at the one before it;
      the new address may sit at the last.
   */
  ghost predicate PathOk(g: Geometry, lookup: seq<int>, addrs: seq<int>, path: seq<int>, a: int)
    requires g.Ok() && |lookup| == |addrs|
  {
    && |path| >= 1
    && (forall i | 0 <= i < |path| :: 0 <= path[i] < |lookup| && 0 <= lookup[path[i]] < |addrs|)
    && (forall i, j | 0 <= i < j < |path| :: path[i] != path[j])
    && (forall i | 1 <= i < |path| ::
          addrs[lookup[path[i]]] != 0 && AtSomeWay(g, path[i - 1], addrs[lookup[path[i]]]))
    && AtSomeWay(g, path[|path| - 1], a)
  }

  ghost predicate ParentsBefore(cs: seq<ZWalkInfo>) {
    forall i | 0 <= i < |cs| :: -1 <= cs[i].parentIdx < i
  }

  lemma WalkParents(g: Geometry, lookup: seq<int>, addrs: seq<int>, a: int, cs: seq<ZWalkInfo>, fringe: int)
    requires g.Ok() && |lookup| == |addrs|
    requires WalkOk(g, lookup, addrs, a, cs, fringe)
    ensures ParentsBefore(cs)
  {
    forall i | 0 <= i < |cs| ensures -1 <= cs[i].parentIdx < i {
      assert CandOk(g, lookup, addrs, a, cs, i);
    }
  }

  ghost predicate SeenBy(cs: seq<ZWalkInfo>, p: int, idx: int)
    requires idx < |cs|
  {
    exists m :: 0 <= m <= idx && p == cs[m].pos
  }

  lemma {:induction false} ChainIsSeen(cs: seq<ZWalkInfo>, idx: int)
    requires -1 <= idx < |cs| && ParentsBefore(cs)
    ensures forall i | 0 <= i < |Chain(cs, idx)| :: SeenBy(cs, Chain(cs, idx)[i], idx)
    decreases idx
  {
    if idx >= 0 {
      var m := cs[idx].parentIdx;
      ChainIsSeen(cs, m);
      forall i | 0 <= i < |Chain(cs, idx)| ensures SeenBy(cs, Chain(cs, idx)[i], idx) {
        if i > 0 {
          assert SeenBy(cs, Chain(cs, m)[i - 1], m);
        }
      }
    }
  }

  lemma PathCons(g: Geometry, lookup: seq<int>, addrs: seq<int>, p: int, rest: seq<int>, a: int)
    requires g.Ok() && |lookup| == |addrs|
    requires PathOk(g, lookup, addrs, rest, a)
    requires 0 <= p < |lookup| && 0 <= lookup[p] < |addrs| && p !in rest
    requires addrs[lookup[rest[0]]] != 0 && AtSomeWay(g, p, addrs[lookup[rest[0]]])
    ensures PathOk(g, lookup, addrs, [p] + rest, a)
  {
    var path := [p] + rest;
    forall i | 0 <= i < |path| ensures path[i] == if i == 0 then p else rest[i - 1] {
    }
  }

  /** The chain of a line's first candidate repeats no position, and it is short. */
  lemma {:induction false} ChainIsPath(g: Geometry, lookup: seq<int>, addrs: seq<int>, posOf: seq<int>, a: int,
                                       cs: seq<ZWalkInfo>, fringe: int, idx: int)
    requires TableOk(g, lookup, addrs, posOf)
    requires WalkOk(g, lookup, addrs, a, cs, fringe) && ParentsBefore(cs)
    requires 0 <= idx < |cs| && First(cs, idx)
    ensures PathOk(g, lookup, addrs, Chain(cs, idx), a)
    ensures Chain(cs, idx)[0] == cs[idx].pos
    ensures |Chain(cs, idx)| <= idx / g.ways + 1
    decreases idx
  {
    assert CandOk(g, lookup, addrs, a, cs, idx);
    var m := cs[idx].parentIdx;
    if m >= 0 {
      FirstParent(g, lookup, addrs, a, cs, fringe, idx);
      ChainIsPath(g, lookup, addrs, posOf, a, cs, fringe, m);
      assert CandOk(g, lookup, addrs, a, cs, m);
      NotSeenBefore(g, lookup, addrs, a, cs, fringe, idx, m);
      PathCons(g, lookup, addrs, cs[idx].pos, Chain(cs, m), a);
      ShorterByOne(idx, m, g.ways);
    } else {
      assert Chain(cs, idx) == [cs[idx].pos];
      assert idx / g.ways >= 0 by { DivMono(0, idx, g.ways); }
    }
  }

  lemma NotSeenBefore(g: Geometry, lookup: seq<int>, addrs: seq<int>, a: int, cs: seq<ZWalkInfo>, fringe: int,
                      idx: int, m: int)
    requires g.Ok() && |lookup| == |addrs|
    requires WalkOk(g, lookup, addrs, a, cs, fringe) && ParentsBefore(cs)
    requires 0 <= m < idx < |cs| && First(cs, idx)
    ensures cs[idx].pos !in Chain(cs, m)
  {
    ChainIsSeen(cs, m);
    forall i | 0 <= i < |Chain(cs, m)| ensures Chain(cs, m)[i] != cs[idx].pos {
      assert SeenBy(cs, Chain(cs, m)[i], m);
      var k :| 0 <= k <= m && Chain(cs, m)[i] == cs[k].pos;
      assert CandOk(g, lookup, addrs, a, cs, k) && CandOk(g, lookup, addrs, a, cs, idx);
    }
  }

  lemma ShorterByOne(i: int, e: int, n: int)
    requires n >= 2 && 0 <= e <= i - n
    ensures e / n + 1 <= i / n
  {
    DivShift(i, n);
    DivMono(e, i - n, n);
  }

  /** Where the child for way w goes when candidate `fringe` sits at its own way w0. */
  function Slot(base: int, w0: int, w: int): int {
    base + w - (if w > w0 then 1 else 0)
  }

  /** cs holds the children of candidate fringe for all ways before w but w0, from index base on. */
  ghost predicate HoldsChildren(g: Geometry, lookup: seq<int>, cs: seq<ZWalkInfo>, base: int, fringe: int, addr: int,
                                w0: int, w: int)
    requires g.Ok()
  {
    && |cs| == Slot(base, w0, w)
    && forall v | 0 <= v < w && v != w0 ::
         var p := g.pos(v, addr);
         && 0 <= Slot(base, w0, v) < |cs| && 0 <= p < |lookup|
         && cs[Slot(base, w0, v)] == ZWalkInfo(p, lookup[p], fringe)
  }

  /** All candidates hold an address. */
  ghost predicate AllHeld(addrs: seq<int>, cs: seq<ZWalkInfo>) {
    forall i | 0 <= i < |cs| :: 0 <= cs[i].lineId < |addrs| && addrs[cs[i].lineId] != 0
  }

  function Lines(cs: seq<ZWalkInfo>): (ids: seq<int>)
    ensures |ids| == |cs| && forall i | 0 <= i < |cs| :: ids[i] == cs[i].lineId
  {
    seq(|cs|, i requires 0 <= i < |cs| => cs[i].lineId)
  }

  /** The last expansion was needed: there were too few candidates before it, and all of them held an address. */
  ghost predicate Needed(g: Geometry, addrs: seq<int>, cs: seq<ZWalkInfo>, fringe: int) {
    fringe > 0 ==>
      var n := |cs| - (g.ways - 1);
      0 <= n <= |cs| && n < g.cands && AllHeld(addrs, cs[..n])
  }

  lemma WasNeeded(g: Geometry, addrs: seq<int>, before: seq<ZWalkInfo>, cs: seq<ZWalkInfo>, fringe: int)
    requires before <= cs && |cs| == |before| + g.ways - 1 && |before| < g.cands && AllHeld(addrs, before)
    ensures Needed(g, addrs, cs, fringe + 1)
  {
    assert cs[..|before|] == before;
  }

  /** The policy is offered the first num candidates of the walk: as many as configured, or all if one of them
      holds no address. */
  ghost predicate Enough(g: Geometry, addrs: seq<int>, cs: seq<ZWalkInfo>, num: int, fringe: int) {
    && g.ways <= num <= g.cands && num <= |cs| && Needed(g, addrs, cs, fringe)
    && num == (if |cs| > g.cands then g.cands else |cs|)
    && (num == g.cands || !AllHeld(addrs, cs))
  }

  /** The walk for address a, of which the policy is offered the first num candidates. */
  ghost predicate Offered(g: Geometry, lookup: seq<int>, addrs: seq<int>, a: int, cs: seq<ZWalkInfo>, num: int,
                          fringe: int)
  {
    && g.Ok() && |lookup| == |addrs| && WalkOk(g, lookup, addrs, a, cs, fringe)
    && Enough(g, addrs, cs, num, fringe)
  }

  /** One candidate per way of address a, without a parent. */
  ghost predicate AllSeeds(g: Geometry, lookup: seq<int>, a: int, cs: seq<ZWalkInfo>) {
    forall i | 0 <= i < |cs| :: IsSeed(g, lookup, a, cs[i], i)
  }

  ghost predicate IsSeed(g: Geometry, lookup: seq<int>, a: int, c: ZWalkInfo, way: int) {
    0 <= g.pos(way, a) < |lookup| && c == ZWalkInfo(g.pos(way, a), lookup[g.pos(way, a)], -1)
  }

  /** The next way's candidate is a seed, and all hold an address exactly if the earlier ones and it do. */
  lemma SeedAdded(g: Geometry, lookup: seq<int>, addrs: seq<int>, posOf: seq<int>, a: int, cs: seq<ZWalkInfo>)
    requires TableOk(g, lookup, addrs, posOf) && |cs| < g.ways && AllSeeds(g, lookup, a, cs)
    ensures 0 <= g.pos(|cs|, a) < |lookup| && 0 <= lookup[g.pos(|cs|, a)] < |addrs|
    ensures var c := ZWalkInfo(g.pos(|cs|, a), lookup[g.pos(|cs|, a)], -1);
            && AllSeeds(g, lookup, a, cs + [c])
            && (AllHeld(addrs, cs + [c]) <==> AllHeld(addrs, cs) && addrs[c.lineId] != 0)
  {
    var c := ZWalkInfo(g.pos(|cs|, a), lookup[g.pos(|cs|, a)], -1);
    var cs' := cs + [c];
    assert cs'[|cs|] == c;
    if AllHeld(addrs, cs') {
      forall i | 0 <= i < |cs| ensures 0 <= cs[i].lineId < |addrs| && addrs[cs[i].lineId] != 0 {
        assert cs'[i] == cs[i];
      }
    }
  }

  lemma SeedsWalk(g: Geometry, lookup: seq<int>, addrs: seq<int>, posOf: seq<int>, a: int, cs: seq<ZWalkInfo>)
    requires TableOk(g, lookup, addrs, posOf) && |cs| == g.ways && AllSeeds(g, lookup, a, cs)
    ensures WalkOk(g, lookup, addrs, a, cs, 0)
  {
    forall i | 0 <= i < |cs| ensures CandOk(g, lookup, addrs, a, cs, i) && cs[i].parentIdx == -1 {
      assert IsSeed(g, lookup, a, cs[i], i);
    }
  }

  lemma ChildAdded(g: Geometry, lookup: seq<int>, cs: seq<ZWalkInfo>, base: int, fringe: int, addr: int, w0: int,
                   w: int)
    requires g.Ok() && g.numLines == |lookup| && 0 <= w < g.ways
    requires HoldsChildren(g, lookup, cs, base, fringe, addr, w0, w)
    ensures var p := g.pos(w, addr);
      var cs' := if w == w0 then cs else cs + [ZWalkInfo(p, lookup[p], fringe)];
      HoldsChildren(g, lookup, cs', base, fringe, addr, w0, w + 1)
  {
  }

  /** Expanding one more candidate, which adds a child for every way but the one it sits at. */
  lemma WalkExtends(g: Geometry, lookup: seq<int>, addrs: seq<int>, posOf: seq<int>, a: int,
                    cs: seq<ZWalkInfo>, cs': seq<ZWalkInfo>, fringe: int, w0: int)
    requires TableOk(g, lookup, addrs, posOf)
    requires WalkOk(g, lookup, addrs, a, cs, fringe)
    requires 0 <= fringe <= |cs| - g.ways && cs <= cs'
    requires 0 <= cs[fringe].lineId < |addrs| && addrs[cs[fringe].lineId] != 0
    requires 0 <= w0 < g.ways && cs[fringe].pos == g.pos(w0, addrs[cs[fringe].lineId])
    requires HoldsChildren(g, lookup, cs', |cs|, fringe, addrs[cs[fringe].lineId], w0, g.ways)
    ensures WalkOk(g, lookup, addrs, a, cs', fringe + 1)
  {
    var base := |cs|;
    assert CandOk(g, lookup, addrs, a, cs, fringe);
    forall i | base <= i < |cs'| ensures CandOk(g, lookup, addrs, a, cs', i) && cs'[i].parentIdx == fringe {
      NewChildOk(g, lookup, addrs, posOf, a, cs', base, fringe, w0, i);
    }
    forall i | 0 <= i < base ensures CandOk(g, lookup, addrs, a, cs', i) && cs'[i] == cs[i] {
      assert CandOk(g, lookup, addrs, a, cs, i);
    }
    forall e | 0 <= e < fringe + 1 ensures Expanded(g, addrs, cs', e) {
      if e < fringe {
        assert Expanded(g, addrs, cs, e);
        StaysExpanded(g, addrs, cs, cs', e);
      } else {
        forall w | 0 <= w < g.ways ensures ChildAt(g, addrs, cs', e, w) {
          if w != w0 {
            assert cs'[Slot(base, w0, w)].parentIdx == e;
          }
        }
      }
    }
  }

  lemma NewChildOk(g: Geometry, lookup: seq<int>, addrs: seq<int>, posOf: seq<int>, a: int,
                   cs': seq<ZWalkInfo>, base: int, fringe: int, w0: int, i: int)
    requires TableOk(g, lookup, addrs, posOf)
    requires 0 <= fringe <= base - g.ways && base <= i < |cs'|
    requires 0 <= cs'[fringe].pos < |lookup| && cs'[fringe].lineId == lookup[cs'[fringe].pos]
    requires addrs[cs'[fringe].lineId] != 0
    requires 0 <= w0 < g.ways && cs'[fringe].pos == g.pos(w0, addrs[cs'[fringe].lineId])
    requires HoldsChildren(g, lookup, cs', base, fringe, addrs[cs'[fringe].lineId], w0, g.ways)
    ensures CandOk(g, lookup, addrs, a, cs', i) && cs'[i].parentIdx == fringe
  {
    var v := if i - base < w0 then i - base else i - base + 1;
    assert Slot(base, w0, v) == i;
    assert posOf[cs'[i].lineId] != posOf[cs'[fringe].lineId];
  }

  lemma StaysExpanded(g: Geometry, addrs: seq<int>, cs: seq<ZWalkInfo>, cs': seq<ZWalkInfo>, e: int)
    requires g.Ok() && Expanded(g, addrs, cs, e) && cs <= cs'
    ensures Expanded(g, addrs, cs', e)
  {
    forall w | 0 <= w < g.ways ensures ChildAt(g, addrs, cs', e, w) {
      assert ChildAt(g, addrs, cs, e, w);
      var p := g.pos(w, addrs[cs[e].lineId]);
      if j :| 0 <= j < |cs| && cs[j].parentIdx == e && cs[j].pos == p {
        assert cs'[j].parentIdx == e && cs'[j].pos == p;
      }
    }
  }

  // ---------------------------------------------------------------- the relocation chain

  /** The table after moving along path: every entry takes its successor's line, the last one the candidate. */
  ghost predicate Rotated(lookup: seq<int>, lookup': seq<int>, path: seq<int>)
    requires |path| >= 1 && forall i | 0 <= i < |path| :: 0 <= path[i] < |lookup|
  {
    && |lookup'| == |lookup|
    && (forall i | 1 <= i < |path| :: lookup'[path[i - 1]] == lookup[path[i]])
    && lookup'[path[|path| - 1]] == lookup[path[0]]
    && (forall p | 0 <= p < |lookup| && p !in path :: lookup'[p] == lookup[p])
  }

  ghost predicate RotatedBack(lookup: seq<int>, posOf: seq<int>, posOf': seq<int>, path: seq<int>)
    requires |path| >= 1 && forall i | 0 <= i < |path| :: 0 <= path[i] < |lookup| && 0 <= lookup[path[i]] < |posOf|
  {
    && |posOf'| == |posOf|
    && (forall i | 1 <= i < |path| :: posOf'[lookup[path[i]]] == path[i - 1])
    && posOf'[lookup[path[0]]] == path[|path| - 1]
    && (forall l | 0 <= l < |posOf| && posOf[l] !in path :: posOf'[l] == posOf[l])
  }

  ghost function IndexIn(path: seq<int>, p: int): (i: int)
    requires p in path
    ensures 0 <= i < |path| && path[i] == p
  {
    var i :| 0 <= i < |path| && path[i] == p;
    i
  }

  /** Each line's position after the move along path. */
  ghost function MovedBack(posOf: seq<int>, path: seq<int>): (r: seq<int>)
    requires |path| >= 1
    ensures |r| == |posOf|
  {
    seq(|posOf|, l requires 0 <= l < |posOf| =>
      if posOf[l] !in path then posOf[l]
      else
        var i := IndexIn(path, posOf[l]);
        if i == 0 then path[|path| - 1] else path[i - 1])
  }

  lemma MovedBackOk(lookup: seq<int>, posOf: seq<int>, path: seq<int>)
    requires Inverse(lookup, posOf)
    requires |path| >= 1 && (forall i | 0 <= i < |path| :: 0 <= path[i] < |lookup|)
    requires forall i, j | 0 <= i < j < |path| :: path[i] != path[j]
    ensures RotatedBack(lookup, posOf, MovedBack(posOf, path), path)
  {
    forall i | 0 <= i < |path| ensures posOf[lookup[path[i]]] == path[i] && IndexIn(path, path[i]) == i {
    }
  }

  lemma RotationInverts(lookup: seq<int>, lookup': seq<int>, posOf: seq<int>, posOf': seq<int>, path: seq<int>)
    requires Inverse(lookup, posOf)
    requires |path| >= 1 && (forall i | 0 <= i < |path| :: 0 <= path[i] < |lookup|)
    requires Rotated(lookup, lookup', path) && RotatedBack(lookup, posOf, posOf', path)
    ensures Inverse(lookup', posOf')
  {
    forall p | 0 <= p < |lookup| ensures 0 <= lookup'[p] < |lookup| && posOf'[lookup'[p]] == p {
      if p in path {
        var i :| 0 <= i < |path| && path[i] == p;
        if i < |path| - 1 {
          assert path[(i + 1) - 1] == p;
          assert lookup'[path[(i + 1) - 1]] == lookup[path[i + 1]];
        }
      }
    }
    forall l | 0 <= l < |posOf| ensures 0 <= posOf'[l] < |lookup| && lookup'[posOf'[l]] == l {
      var p := posOf[l];
      if p in path {
        var i :| 0 <= i < |path| && path[i] == p;
        assert lookup[path[i]] == l;
        if i > 0 {
          assert posOf'[lookup[path[i]]] == path[i - 1];
          assert lookup'[path[i - 1]] == lookup[path[i]];
        }
      }
    }
  }

  /** The moves put every line at one of its own positions and the new address at one of its own. */
  lemma RelocationKeeps(g: Geometry, lookup: seq<int>, lookup': seq<int>, addrs: seq<int>,
                        posOf: seq<int>, posOf': seq<int>, path: seq<int>, a: int)
    requires TableOk(g, lookup, addrs, posOf)
    requires PathOk(g, lookup, addrs, path, a) && a != 0 && a !in addrs
    requires Rotated(lookup, lookup', path) && RotatedBack(lookup, posOf, posOf', path)
    ensures TableOk(g, lookup', addrs[lookup[path[0]] := a], posOf')
  {
    var c := lookup[path[0]];
    var addrs' := addrs[c := a];
    RotationInverts(lookup, lookup', posOf, posOf', path);
    forall l | 0 <= l < |addrs| && addrs'[l] != 0 ensures AtSomeWay(g, posOf'[l], addrs'[l]) {
      if l != c {
        LineStaysPlaced(g, lookup, addrs, posOf, posOf', path, a, l);
      }
    }
  }

  lemma LineStaysPlaced(g: Geometry, lookup: seq<int>, addrs: seq<int>, posOf: seq<int>, posOf': seq<int>,
                        path: seq<int>, a: int, l: int)
    requires TableOk(g, lookup, addrs, posOf)
    requires PathOk(g, lookup, addrs, path, a)
    requires RotatedBack(lookup, posOf, posOf', path)
    requires 0 <= l < |addrs| && addrs[l] != 0 && l != lookup[path[0]]
    ensures AtSomeWay(g, posOf'[l], addrs[l])
  {
    assert AtSomeWay(g, posOf[l], addrs[l]);
    if posOf[l] in path {
      var i :| 0 <= i < |path| && path[i] == posOf[l];
      assert lookup[path[i]] == l && i > 0;
      assert posOf'[lookup[path[i]]] == path[i - 1];
      assert AtSomeWay(g, path[i - 1], addrs[lookup[path[i]]]);
    }
  }

  // ---------------------------------------------------------------- contents

  /** The array as what it is to its users: a map from addresses to line ids. */
  ghost function Contents(addrs: seq<int>): (m: map<int, int>)
    requires NoRepeats(addrs)
  {
    map l | 0 <= l < |addrs| && addrs[l] != 0 :: addrs[l] := l
  }

  /** Replacing the address of one line removes what it held and adds the new one. */
  lemma ContentsAfterReplace(addrs: seq<int>, c: int, a: int)
    requires NoRepeats(addrs)
    requires 0 <= c < |addrs| && a != 0 && a !in addrs
    ensures NoRepeats(addrs[c := a])
    ensures Contents(addrs[c := a]) == (Contents(addrs) - {addrs[c]})[a := c]
  {
    var m, m' := Contents(addrs[c := a]), (Contents(addrs) - {addrs[c]})[a := c];
    forall k | k in m ensures k in m' && m'[k] == m[k] {
      var l := m[k];
      assert addrs[c := a][l] == k;
      if l != c {
        assert addrs[l] in Contents(addrs);
      }
    }
    forall k | k in m' ensures k in m {
      if k != a {
        assert k in Contents(addrs);
        var l := Contents(addrs)[k];
        assert addrs[c := a][l] == k;
      } else {
        assert addrs[c := a][c] == a;
      }
    }
  }

  // ---------------------------------------------------------------- the array

  class ZArray {
    const g: Geometry
    /** Position to line id. */
    const lookupArray: array<int>
    /** Line id to address. */
    const addrs: array<int>
    const swapArray: array<int>
    var swapArrayLen: int
    ghost var posOf: seq<int>

    ghost predicate Valid()
      reads this, lookupArray, addrs
    {
      && lookupArray != addrs && swapArray != lookupArray && swapArray != addrs
      && TableOk(g, lookupArray[..], addrs[..], posOf)
      && swapArray.Length == g.cands / g.ways + 2
    }

    /** preinsert has chosen line `candidate` for address a and recorded how to make room for it. */
    ghost predicate Ready(a: int, candidate: int)
      requires Valid()
      reads this, lookupArray, addrs, swapArray
    {
      && 1 <= swapArrayLen <= swapArray.Length
      && PathOk(g, lookupArray[..], addrs[..], swapArray[..swapArrayLen], a)
      && lookupArray[swapArray[0]] == candidate
    }

    constructor (geometry: Geometry)
      requires geometry.Ok()
      ensures Valid() && fresh(lookupArray) && fresh(addrs) && fresh(swapArray)
      ensures g == geometry && forall l | 0 <= l < addrs.Length :: addrs[l] == 0
    {
      g := geometry;
      lookupArray := new int[geometry.numLines](i => i);
      addrs := new int[geometry.numLines](_ => 0);
      DivMono(0, geometry.cands, geometry.ways);
      swapArray := new int[geometry.cands / geometry.ways + 2](_ => 0);
      swapArrayLen := 0;
      posOf := seq(geometry.numLines, i => i);
    }

    /** The line that holds an address, or -1. The address 0 makes the original panic. */
    method Lookup(lineAddr: int) returns (lineId: int)
      requires Valid() && lineAddr != 0
      ensures lineId == -1 ==> lineAddr !in addrs[..]
      ensures lineId != -1 ==> 0 <= lineId < addrs.Length && addrs[lineId] == lineAddr
    {
      for w := 0 to g.ways
        invariant forall v | 0 <= v < w :: addrs[lookupArray[g.pos(v, lineAddr)]] != lineAddr
      {
        lineId := lookupArray[g.pos(w, lineAddr)];
        if addrs[lineId] == lineAddr {
          return;
        }
      }
      lineId := -1;
      forall l | 0 <= l < addrs.Length ensures addrs[l] != lineAddr {
        assert addrs[l] != 0 ==> AtSomeWay(g, posOf[l], addrs[l]);
      }
    }

    /** The seeds: one candidate per way of the incoming address. */
    method Seeds(lineAddr: int, cs: array<ZWalkInfo>) returns (allValid: bool)
      requires Valid() && cs.Length >= g.ways
      modifies cs
      ensures Valid()
      ensures WalkOk(g, lookupArray[..], addrs[..], lineAddr, cs[..g.ways], 0)
      ensures allValid <==> AllHeld(addrs[..], cs[..g.ways])
    {
      ghost var lookup, held := lookupArray[..], addrs[..];
      allValid := true;
      for w := 0 to g.ways
        invariant Valid() && lookup == lookupArray[..] && held == addrs[..]
        invariant AllSeeds(g, lookup, lineAddr, cs[..w])
        invariant allValid <==> AllHeld(held, cs[..w])
      {
        allValid := AddSeed(lineAddr, cs, w, allValid);
      }
      SeedsWalk(g, lookup, held, posOf, lineAddr, cs[..g.ways]);
    }

    method AddSeed(lineAddr: int, cs: array<ZWalkInfo>, w: int, valid: bool) returns (allValid: bool)
      requires Valid() && 0 <= w < g.ways <= cs.Length
      requires AllSeeds(g, lookupArray[..], lineAddr, cs[..w])
      requires valid <==> AllHeld(addrs[..], cs[..w])
      modifies cs
      ensures AllSeeds(g, lookupArray[..], lineAddr, cs[..w + 1])
      ensures allValid <==> AllHeld(addrs[..], cs[..w + 1])
    {
      var pos := g.pos(w, lineAddr);
      var lineId := lookupArray[pos];
      ghost var earlier, lookup, held := cs[..w], lookupArray[..], addrs[..];
      SeedAdded(g, lookup, held, posOf, lineAddr, earlier);
      cs[w] := ZWalkInfo(pos, lineId, -1);
      assert cs[..w + 1] == earlier + [ZWalkInfo(pos, lineId, -1)];
      assert lookupArray[..] == lookup && addrs[..] == held;
      allValid := valid && addrs[lineId] != 0;
    }

    /** Expanding candidate `fringe`: the line it holds could also sit at its other ways' positions. */
    method Expand(ghost lineAddr: int, cs: array<ZWalkInfo>, fringe: int, num: int) returns (num': int, allValid: bool)
      requires Valid()
      requires 0 <= fringe <= num - g.ways && num < g.cands && cs.Length == g.cands + g.ways
      requires WalkOk(g, lookupArray[..], addrs[..], lineAddr, cs[..num], fringe)
      requires AllHeld(addrs[..], cs[..num])
      modifies cs
      ensures Valid()
      ensures num' == num + g.ways - 1
      ensures WalkOk(g, lookupArray[..], addrs[..], lineAddr, cs[..num'], fringe + 1)
      ensures allValid <==> AllHeld(addrs[..], cs[..num'])
      ensures Needed(g, addrs[..], cs[..num'], fringe + 1)
    {
      ghost var before, lookup, held := cs[..num], lookupArray[..], addrs[..];
      assert CandOk(g, lookup, held, lineAddr, before, fringe);
      var fringeId := cs[fringe].lineId;
      var fringeAddr := addrs[fringeId];
      assert fringeAddr != 0;
      assert AtSomeWay(g, posOf[fringeId], fringeAddr);
      ghost var w0 := g.way(posOf[fringeId]);
      num', allValid := num, true;
      for w := 0 to g.ways
        invariant Valid() && lookup == lookupArray[..] && held == addrs[..]
        invariant num' == Slot(num, w0, w)
        invariant before <= cs[..num']
        invariant HoldsChildren(g, lookup, cs[..num'], num, fringe, fringeAddr, w0, w)
        invariant allValid <==> AllHeld(held, cs[..num'])
      {
        num', allValid := AddChild(cs, fringe, fringeId, fringeAddr, num', allValid, num, w0, w);
      }
      WalkExtends(g, lookup, held, posOf, lineAddr, before, cs[..num'], fringe, w0);
      WasNeeded(g, held, before, cs[..num'], fringe);
    }

    /** The candidate for way w. If it is the fringe line itself, the next one will overwrite it. */
    method AddChild(cs: array<ZWalkInfo>, fringe: int, fringeId: int, fringeAddr: int, num: int, valid: bool,
                    ghost base: int, ghost w0: int, w: int)
      returns (num': int, allValid: bool)
      requires Valid() && 0 <= w < g.ways && 0 <= num < cs.Length
      requires 0 <= fringeId < addrs.Length && addrs[fringeId] == fringeAddr != 0 && w0 == g.way(posOf[fringeId])
      requires posOf[fringeId] == g.pos(w0, fringeAddr)
      requires HoldsChildren(g, lookupArray[..], cs[..num], base, fringe, fringeAddr, w0, w)
      modifies cs
      ensures num' == if w == w0 then num else num + 1
      ensures old(cs[..num]) <= cs[..num']
      ensures HoldsChildren(g, lookupArray[..], cs[..num'], base, fringe, fringeAddr, w0, w + 1)
      ensures (valid <==> AllHeld(addrs[..], old(cs[..num]))) ==> (allValid <==> AllHeld(addrs[..], cs[..num']))
    {
      var pos := g.pos(w, fringeAddr);
      var lineId := lookupArray[pos];
      assert lineId == fringeId <==> w == w0 by {
        assert posOf[lineId] == pos;
      }
      ghost var earlier := cs[..num];
      ChildAdded(g, lookupArray[..], earlier, base, fringe, fringeAddr, w0, w);
      cs[num] := ZWalkInfo(pos, lineId, fringe);
      assert cs[..num] == earlier;
      assert cs[..num + 1] == earlier + [ZWalkInfo(pos, lineId, fringe)];
      allValid := valid && addrs[lineId] != 0;
      num' := num + if lineId != fringeId then 1 else 0;
    }

    /** The walk: expand candidates first in, first out, until there are enough or one holds no address. */
    method Walk(lineAddr: int, cs: array<ZWalkInfo>) returns (num: int, ghost all: int, ghost fringe: int)
      requires Valid() && cs.Length == g.cands + g.ways
      modifies cs
      ensures Valid()
      ensures g.ways <= num <= all <= cs.Length && num <= g.cands
      ensures WalkOk(g, lookupArray[..], addrs[..], lineAddr, cs[..all], fringe)
      ensures Enough(g, addrs[..], cs[..all], num, fringe)
    {
      var allValid := Seeds(lineAddr, cs);
      num := g.ways;
      var fringeStart := 0;
      while num < g.cands && allValid
        invariant Valid()
        invariant num == g.ways + fringeStart * (g.ways - 1) && 0 <= fringeStart <= num - g.ways
        invariant num <= g.cands + g.ways
        invariant WalkOk(g, lookupArray[..], addrs[..], lineAddr, cs[..num], fringeStart)
        invariant allValid <==> AllHeld(addrs[..], cs[..num])
        invariant Needed(g, addrs[..], cs[..num], fringeStart)
        decreases g.cands - num
      {
        NextFringe(fringeStart, g.ways);
        num, allValid := Expand(lineAddr, cs, fringeStart, num);
        fringeStart := fringeStart + 1;
      }
      assert !allValid || num >= g.cands;
      fringe, all := fringeStart, num;
      if num > g.cands {
        num := g.cands;
      }
    }

    lemma NextFringe(f: int, n: int)
      requires f >= 0 && n >= 2
      ensures (f + 1) * (n - 1) == f * (n - 1) + (n - 1)
    {
    }

    /** Chooses the line to replace for an address that is not here, and records the moves that make room.
        rankCands is the replacement policy: any choice among the lines it is offered, which are those of the first
        num candidates of the walk cs.
     */
    method Preinsert(lineAddr: int, rankCands: seq<int> -> int)
      returns (bestCandidate: int, wbLineAddr: int, ghost cs: seq<ZWalkInfo>, ghost num: int, ghost fringe: int)
      requires Valid()
      requires forall s: seq<int> | s != [] :: rankCands(s) in s
      modifies swapArray, this`swapArrayLen
      ensures Valid() && Ready(lineAddr, bestCandidate)
      ensures 0 <= bestCandidate < addrs.Length && wbLineAddr == addrs[bestCandidate]
      ensures Offered(g, lookupArray[..], addrs[..], lineAddr, cs, num, fringe)
      ensures bestCandidate == rankCands(Lines(cs[..num]))
    {
      var candidates := new ZWalkInfo[g.cands + g.ways](_ => ZWalkInfo(0, 0, -1));
      var numCandidates;
      ghost var all;
      numCandidates, all, fringe := Walk(lineAddr, candidates);
      cs, num := candidates[..all], numCandidates;
      assert cs[..num] == candidates[..numCandidates];
      bestCandidate := rankCands(Lines(candidates[..numCandidates]));
      var minIdx := FirstOf(candidates, numCandidates, bestCandidate);
      MinIndexChain(lineAddr, candidates[..all], fringe, minIdx);
      FillSwapArray(candidates, minIdx, cs);
      wbLineAddr := addrs[bestCandidate];
    }

    lemma MinIndexChain(a: int, cs: seq<ZWalkInfo>, fringe: int, minIdx: int)
      requires Valid() && WalkOk(g, lookupArray[..], addrs[..], a, cs, fringe)
      requires 0 <= minIdx < |cs| && minIdx < g.cands && First(cs, minIdx)
      ensures ParentsBefore(cs)
      ensures PathOk(g, lookupArray[..], addrs[..], Chain(cs, minIdx), a)
      ensures |Chain(cs, minIdx)| <= swapArray.Length
      ensures lookupArray[Chain(cs, minIdx)[0]] == cs[minIdx].lineId
    {
      WalkParents(g, lookupArray[..], addrs[..], a, cs, fringe);
      assert CandOk(g, lookupArray[..], addrs[..], a, cs, minIdx);
      ChainIsPath(g, lookupArray[..], addrs[..], posOf, a, cs, fringe, minIdx);
      DivMono(minIdx, g.cands, g.ways);
    }

    /** A line may be a candidate more than once. The first time is the one whose chain has no loop. */
    method FirstOf(candidates: array<ZWalkInfo>, num: int, best: int) returns (minIdx: int)
      requires 0 <= num <= candidates.Length && best in Lines(candidates[..num])
      ensures 0 <= minIdx < num && candidates[minIdx].lineId == best
      ensures forall j | 0 <= j < minIdx :: candidates[j].lineId != best
    {
      ghost var k :| 0 <= k < num && Lines(candidates[..num])[k] == best;
      minIdx := 0;
      while candidates[minIdx].lineId != best
        invariant 0 <= minIdx <= k
        invariant forall j | 0 <= j < minIdx :: candidates[j].lineId != best
        decreases k - minIdx
      {
        minIdx := minIdx + 1;
      }
    }

    /** Records the positions from the chosen candidate back to its seed. */
    method FillSwapArray(candidates: array<ZWalkInfo>, minIdx: int, ghost cs: seq<ZWalkInfo>)
      requires Valid()
      requires |cs| <= candidates.Length && cs == candidates[..|cs|] && ParentsBefore(cs)
      requires 0 <= minIdx < |cs| && |Chain(cs, minIdx)| <= swapArray.Length
      modifies swapArray, this`swapArrayLen
      ensures Valid()
      ensures 0 <= swapArrayLen <= swapArray.Length && swapArray[..swapArrayLen] == Chain(cs, minIdx)
    {
      var idx, swapIdx := minIdx, 0;
      ghost var done: seq<int> := [];
      while idx >= 0
        invariant Valid() && cs == candidates[..|cs|]
        invariant -1 <= idx < |cs| && 0 <= swapIdx == |done|
        invariant done + Chain(cs, idx) == Chain(cs, minIdx)
        invariant |done| <= swapArray.Length && swapArray[..swapIdx] == done
        decreases idx
      {
        ChainUnfolds(cs, done, idx);
        assert candidates[idx] == cs[idx];
        swapArray[swapIdx] := candidates[idx].pos;
        done := done + [cs[idx].pos];
        swapIdx := swapIdx + 1;
        idx := candidates[idx].parentIdx;
      }
      swapArrayLen := swapIdx;
    }

    /** Moves the lines along the recorded chain and puts the new address in the freed line. The line ids of
        all other addresses stay the same.
     */
    method Postinsert(lineAddr: int, candidate: int)
      requires Valid() && Ready(lineAddr, candidate)
      requires lineAddr != 0 && lineAddr !in addrs[..]
      modifies lookupArray, addrs, this`posOf
      ensures Valid()
      ensures 0 <= candidate < addrs.Length && addrs[..] == old(addrs[..])[candidate := lineAddr]
    {
      ghost var path, lookup, at := swapArray[..swapArrayLen], lookupArray[..], posOf;
      assert lookupArray[swapArray[0]] == candidate;
      MoveLines(candidate, path);
      posOf := MovedBack(at, path);
      MovedBackOk(lookup, at, path);
      addrs[candidate] := lineAddr;
      RelocationKeeps(g, lookup, lookupArray[..], old(addrs[..]), at, posOf, path, lineAddr);
    }

    method MoveLines(candidate: int, ghost path: seq<int>)
      requires lookupArray != swapArray
      requires 1 <= swapArrayLen <= swapArray.Length && path == swapArray[..swapArrayLen]
      requires forall i | 0 <= i < |path| :: 0 <= path[i] < lookupArray.Length
      requires forall i, j | 0 <= i < j < |path| :: path[i] != path[j]
      requires lookupArray[path[0]] == candidate
      modifies lookupArray
      ensures Rotated(old(lookupArray[..]), lookupArray[..], path)
    {
      ghost var lookup := lookupArray[..];
      for i := 0 to swapArrayLen - 1
        invariant swapArray[..swapArrayLen] == path
        invariant forall j | 1 <= j <= i :: lookupArray[path[j - 1]] == lookup[path[j]]
        invariant forall j | i <= j < |path| :: lookupArray[path[j]] == lookup[path[j]]
        invariant forall p | 0 <= p < |lookup| && p !in path :: lookupArray[p] == lookup[p]
      {
        assert swapArray[i] == path[i] && swapArray[i + 1] == path[i + 1];
        lookupArray[swapArray[i]] := lookupArray[swapArray[i + 1]];
      }
      assert swapArray[swapArrayLen - 1] == path[swapArrayLen - 1];
      lookupArray[swapArray[swapArrayLen - 1]] := candidate;
    }

    /** A cache access's use of the array: look up, and on a miss replace a line. To its users the array is a
        map that changes only by giving up the replaced line's address.
     */
    method Allocate(lineAddr: int, rankCands: seq<int> -> int)
      returns (lineId: int, wbLineAddr: int, ghost cs: seq<ZWalkInfo>, ghost num: int, ghost fringe: int)
      requires Valid() && lineAddr != 0
      requires forall s: seq<int> | s != [] :: rankCands(s) in s
      modifies swapArray, this`swapArrayLen, lookupArray, addrs, this`posOf
      ensures Valid() && 0 <= lineId < addrs.Length
      ensures var m := Contents(old(addrs[..]));
        if lineAddr in m then
          m[lineAddr] == lineId && Contents(addrs[..]) == m
        else
          && wbLineAddr == old(addrs[..])[lineId]
          && Contents(addrs[..]) == (m - {wbLineAddr})[lineAddr := lineId]
          && Offered(g, old(lookupArray[..]), old(addrs[..]), lineAddr, cs, num, fringe)
          && lineId == rankCands(Lines(cs[..num]))
    {
      lineId := Lookup(lineAddr);
      wbLineAddr, cs, num, fringe := 0, [], 0, 0;
      ghost var m := Contents(addrs[..]);
      if lineId == -1 {
        assert lineAddr !in m;
        lineId, wbLineAddr, cs, num, fringe := Preinsert(lineAddr, rankCands);
        ContentsAfterReplace(addrs[..], lineId, lineAddr);
        Postinsert(lineAddr, lineId);
      } else {
        assert addrs[lineId] in m;
      }
    }
  }
}
