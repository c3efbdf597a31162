/** The utility monitor: per sampled set, a linked list of `buckets` lines in LRU order with one hit counter
    per position. It gives the misses of every smaller LRU cache at once, because the first k lines of the
    list are what a k-way cache would hold.
 */
module Umon {

  // ---------------------------------------------------------------- one LRU list

  /** The first position of x, or the length of the list. */
  function Find(list: seq<int>, x: int): (w: int)
    ensures 0 <= w <= |list|
  {
    if list == [] then 0 else if list[0] == x then 0 else 1 + Find(list[1..], x)
  }

  /** Find gives the first position of x. */
  lemma {:induction false} FindAt(list: seq<int>, x: int)
    ensures var w := Find(list, x); (w < |list| ==> list[w] == x) && forall i | 0 <= i < w :: list[i] != x
    ensures x in list <==> Find(list, x) < |list|
  {
    if list != [] && list[0] != x {
      FindAt(list[1..], x);
      var w := Find(list, x);
      forall i | 0 <= i < w ensures list[i] != x {
        if i > 0 {
          assert list[i] == list[1..][i - 1];
        }
      }
    }
  }

  lemma {:induction false} FindIs(list: seq<int>, x: int, w: int)
    requires 0 <= w <= |list| && (w < |list| ==> list[w] == x)
    requires forall i | 0 <= i < w :: list[i] != x
    ensures Find(list, x) == w
  {
    FindAt(list, x);
  }

  /** The list without its entry w. */
  function Cut(list: seq<int>, w: int): (r: seq<int>)
    requires 0 <= w < |list|
    ensures |r| == |list| - 1
    ensures forall i | 0 <= i < |r| :: r[i] == list[if i < w then i else i + 1]
  {
    list[..w] + list[w + 1..]
  }

  /** The list after an access to x: x moves or enters at the front; on a miss the last line goes. */
  function Touch(list: seq<int>, x: int): (r: seq<int>)
    requires list != []
    ensures |r| == |list| && r[0] == x
  {
    [x] + Cut(list, if Find(list, x) < |list| then Find(list, x) else |list| - 1)
  }

  /** A set-associative LRU cache: per set its lines from most to least recent; hits by position; misses. */
  datatype Cache = Cache(sets: seq<seq<int>>, hits: seq<int>, misses: int) {
    predicate Ways(k: int) {
      |hits| == k && forall s | 0 <= s < |sets| :: |sets[s]| == k
    }

    function Access(set_: int, x: int): (c: Cache)
      requires 0 <= set_ < |sets| && Ways(|hits|) && |hits| > 0
      ensures c.Ways(|hits|) && |c.sets| == |sets|
    {
      var w := Find(sets[set_], x);
      Cache(sets[set_ := Touch(sets[set_], x)],
            if w < |hits| then hits[w := hits[w] + 1] else hits,
            if w < |hits| then misses else misses + 1)
    }

    /** The misses and the hits at positions k and beyond. */
    function MissesOf(k: int): int
      requires 0 <= k <= |hits|
    {
      misses + Sum(hits[k..])
    }

    function Restart(): Cache {
      Cache(sets, Zeros(|hits|), 0)
    }
  }

  function Zeros(n: nat): seq<int> {
    seq(n, _ => 0)
  }

  function Empty(sets: nat, ways: nat): Cache {
    Cache(seq(sets, _ => Zeros(ways)), Zeros(ways), 0)
  }

  // ---------------------------------------------------------------- the stack property

  function Sum(s: seq<int>): int {
    if s == [] then 0 else s[0] + Sum(s[1..])
  }

  lemma {:induction false} SumUpdate(s: seq<int>, i: int, v: int)
    requires 0 <= i < |s|
    ensures Sum(s[i := v]) == Sum(s) + v - s[i]
  {
    if i == 0 {
      assert s[0 := v][1..] == s[1..];
    } else {
      SumUpdate(s[1..], i - 1, v);
      assert s[i := v][1..] == s[1..][i - 1 := v];
    }
  }

  lemma SumFrom(s: seq<int>, i: int)
    requires 0 <= i < |s|
    ensures Sum(s[i..]) == s[i] + Sum(s[i + 1..])
  {
    assert s[i..][1..] == s[i + 1..];
  }

  lemma {:induction false} SumZeros(s: seq<int>)
    requires forall i | 0 <= i < |s| :: s[i] == 0
    ensures Sum(s) == 0
  {
    if s != [] {
      SumZeros(s[1..]);
    }
  }

  /** A shorter list of the same accesses is a prefix of the longer one, before and after each access. */
  lemma TouchPrefix(list: seq<int>, k: int, x: int)
    requires 1 <= k <= |list|
    ensures Touch(list, x)[..k] == Touch(list[..k], x)
    ensures Find(list[..k], x) == if Find(list, x) < k then Find(list, x) else k
  {
    var w := Find(list, x);
    FindAt(list, x);
    FindIs(list[..k], x, if w < k then w else k);
  }

  /** The k-way cache is what the first k positions of the larger one hold, and its misses are the larger
      one's misses and its hits at positions k and beyond. */
  ghost predicate Covers(big: Cache, small: Cache, k: int) {
    && 1 <= k <= |big.hits| && big.Ways(|big.hits|) && small.Ways(k) && |big.sets| == |small.sets|
    && (forall s | 0 <= s < |big.sets| :: small.sets[s] == big.sets[s][..k])
    && small.misses == big.MissesOf(k)
  }

  lemma AccessCovers(big: Cache, small: Cache, k: int, s: int, x: int)
    requires Covers(big, small, k) && 0 <= s < |big.sets|
    ensures Covers(big.Access(s, x), small.Access(s, x), k)
  {
    TouchPrefix(big.sets[s], k, x);
    var w := Find(big.sets[s], x);
    if k <= w < |big.hits| {
      SumUpdate(big.hits[k..], w - k, big.hits[w] + 1);
      assert big.hits[w := big.hits[w] + 1][k..] == big.hits[k..][w - k := big.hits[w] + 1];
    } else if w < k {
      assert big.hits[w := big.hits[w] + 1][k..] == big.hits[k..];
    }
  }

  lemma RestartCovers(big: Cache, small: Cache, k: int)
    requires Covers(big, small, k)
    ensures Covers(big.Restart(), small.Restart(), k)
  {
    SumZeros(big.Restart().hits[k..]);
  }

  /** What reaches the monitored sets: a sampled access to one set, or the start of an interval. */
  datatype Event = Access(set_: int, x: int) | NextInterval

  ghost predicate InSets(run: seq<Event>, sets: int) {
    forall i | 0 <= i < |run| && run[i].Access? :: 0 <= run[i].set_ < sets
  }

  ghost function Run(run: seq<Event>, sets: nat, ways: nat): (c: Cache)
    requires InSets(run, sets) && ways > 0
    ensures c.Ways(ways) && |c.sets| == sets
  {
    if run == [] then Empty(sets, ways)
    else
      var c := Run(run[..|run| - 1], sets, ways);
      match run[|run| - 1]
      case Access(s, x) => c.Access(s, x)
      case NextInterval => c.Restart()
  }

  lemma RunAppend(run: seq<Event>, e: Event, sets: nat, ways: nat)
    requires InSets(run, sets) && ways > 0 && (e.Access? ==> 0 <= e.set_ < sets)
    ensures InSets(run + [e], sets)
    ensures var c := Run(run, sets, ways);
            Run(run + [e], sets, ways) == if e.Access? then c.Access(e.set_, e.x) else c.Restart()
  {
    assert (run + [e])[..|run|] == run;
  }

  /** Over every run, each k-way cache fed the same accesses is the first k positions of the monitor. */
  lemma {:induction false} StackInclusion(run: seq<Event>, sets: nat, ways: nat, k: int)
    requires InSets(run, sets) && 1 <= k <= ways
    ensures Covers(Run(run, sets, ways), Run(run, sets, k), k)
  {
    if run == [] {
      SumZeros(Zeros(ways)[k..]);
    } else {
      var before := run[..|run| - 1];
      StackInclusion(before, sets, ways, k);
      var big, small := Run(before, sets, ways), Run(before, sets, k);
      match run[|run| - 1]
      case Access(s, x) => AccessCovers(big, small, k, s, x);
      case NextInterval => RestartCovers(big, small, k);
    }
  }

  /** The accesses of the current interval. */
  ghost function Accesses(run: seq<Event>): nat {
    if run == [] || run[|run| - 1].NextInterval? then 0 else 1 + Accesses(run[..|run| - 1])
  }

  lemma {:induction false} AllCounted(run: seq<Event>, sets: nat, ways: nat)
    requires InSets(run, sets) && ways > 0
    ensures Run(run, sets, ways).misses + Sum(Run(run, sets, ways).hits) == Accesses(run)
    ensures forall b | 0 <= b < ways :: Run(run, sets, ways).hits[b] >= 0
  {
    if run == [] {
      SumZeros(Zeros(ways));
    } else {
      var before := run[..|run| - 1];
      AllCounted(before, sets, ways);
      var c := Run(before, sets, ways);
      match run[|run| - 1]
      case Access(s, x) =>
        var w := Find(c.sets[s], x);
        assert Run(run, sets, ways) == c.Access(s, x);
        if w < ways {
          SumUpdate(c.hits, w, c.hits[w] + 1);
        }
      case NextInterval => SumZeros(c.Restart().hits);
    }
  }

  /** The miss curve: entry 0 counts every access of the interval, entry k the misses of the k-way cache fed
      the same accesses; it never rises. */
  lemma MissCurve(run: seq<Event>, sets: nat, ways: nat, curve: seq<int>)
    requires InSets(run, sets) && ways > 0 && |curve| == ways + 1
    requires var c := Run(run, sets, ways); forall k | 0 <= k <= ways :: curve[k] == c.MissesOf(k)
    ensures curve[0] == Accesses(run)
    ensures forall k | 1 <= k <= ways :: curve[k] == Run(run, sets, k).misses
    ensures forall k | 0 <= k < ways :: curve[k] >= curve[k + 1]
  {
    var c := Run(run, sets, ways);
    AllCounted(run, sets, ways);
    assert c.hits[0..] == c.hits;
    forall k | 1 <= k <= ways ensures curve[k] == Run(run, sets, k).misses {
      StackInclusion(run, sets, ways, k);
    }
    forall k | 0 <= k < ways ensures curve[k] >= curve[k + 1] {
      SumFrom(c.hits, k);
    }
  }

  // ---------------------------------------------------------------- positions are reuse distances

  ghost function Without(list: seq<int>, x: int): seq<int> {
    if Find(list, x) < |list| then Cut(list, Find(list, x)) else list
  }

  /** The lines of a history, the most recently accessed first, each once. */
  ghost function Recent(history: seq<int>): seq<int> {
    if history == [] then []
    else
      var x := history[|history| - 1];
      [x] + Without(Recent(history[..|history| - 1]), x)
  }

  /** The other lines accessed since the last access to x. */
  ghost function Since(history: seq<int>, x: int): set<int> {
    if history == [] || history[|history| - 1] == x then {}
    else Since(history[..|history| - 1], x) + {history[|history| - 1]}
  }

  ghost predicate Distinct(list: seq<int>) {
    forall i, j | 0 <= i < j < |list| :: list[i] != list[j]
  }

  ghost function Elems(list: seq<int>): set<int> {
    set y | y in list
  }

  lemma CutElems(r: seq<int>, w: int)
    requires Distinct(r) && 0 <= w < |r|
    ensures Distinct(Cut(r, w)) && Elems(Cut(r, w)) == Elems(r) - {r[w]}
  {
    var c := Cut(r, w);
    forall y | y in r && y != r[w] ensures y in c {
      var i :| 0 <= i < |r| && r[i] == y;
      assert c[if i < w then i else i - 1] == y;
    }
    forall y | y in c ensures y in r && y != r[w] {
      var i :| 0 <= i < |c| && c[i] == y;
      assert y == r[if i < w then i else i + 1];
    }
  }

  lemma {:induction false} ElemsCard(list: seq<int>)
    requires Distinct(list)
    ensures |Elems(list)| == |list|
  {
    if list != [] {
      ElemsCard(list[1..]);
      assert Elems(list) == Elems(list[1..]) + {list[0]};
    }
  }

  /** Moving z to the front keeps the list free of repeats and adds only z. */
  lemma FrontHolds(r: seq<int>, z: int)
    requires Distinct(r)
    ensures Distinct([z] + Without(r, z))
    ensures Elems([z] + Without(r, z)) == Elems(r) + {z}
  {
    FindAt(r, z);
    if z in r {
      CutElems(r, Find(r, z));
    }
    var rest := Without(r, z);
    assert z !in Elems(rest);
    assert Elems([z] + rest) == {z} + Elems(rest);
    forall i, j | 0 <= i < j < |rest| + 1 ensures ([z] + rest)[i] != ([z] + rest)[j] {
      assert rest[j - 1] in Elems(rest);
    }
  }

  lemma {:induction false} RecentHolds(history: seq<int>)
    ensures Distinct(Recent(history)) && Elems(Recent(history)) == Elems(history)
  {
    if history != [] {
      var n := |history| - 1;
      var before, z := history[..n], history[n];
      assert history == before + [z];
      RecentHolds(before);
      RecentHoldsStep(before, z);
    }
  }

  lemma RecentHoldsStep(before: seq<int>, z: int)
    requires Distinct(Recent(before)) && Elems(Recent(before)) == Elems(before)
    ensures Distinct(Recent(before + [z])) && Elems(Recent(before + [z])) == Elems(before + [z])
  {
    FrontHolds(Recent(before), z);
    RecentAppend(before, z);
    ElemsAppend(before, z);
  }

  lemma ElemsAppend(list: seq<int>, z: int)
    ensures Elems(list + [z]) == Elems(list) + {z}
  {
  }

  /** A line that comes before position v keeps its place when v is cut out. */
  lemma CutBefore(r: seq<int>, v: int, y: int)
    requires 0 <= v < |r| && Find(r, y) < v
    ensures Find(Cut(r, v), y) == Find(r, y)
  {
    FindAt(r, y);
    FindIs(Cut(r, v), y, Find(r, y));
  }

  /** A line that comes after position v moves up by one. */
  lemma CutAfter(r: seq<int>, v: int, y: int)
    requires 0 <= v < Find(r, y) < |r|
    ensures Find(Cut(r, v), y) == Find(r, y) - 1
  {
    FindAt(r, y);
    var w, c := Find(r, y), Cut(r, v);
    assert c[w - 1] == r[w];
    forall i | 0 <= i < w - 1 ensures c[i] != y {
      assert c[i] == r[if i < v then i else i + 1];
    }
    FindIs(c, y, w - 1);
  }

  lemma FindBehind(rest: seq<int>, z: int, y: int)
    requires y != z
    ensures Find([z] + rest, y) == 1 + Find(rest, y)
  {
    assert ([z] + rest)[1..] == rest;
  }

  /** Moving z to the front shifts only the lines it passes. */
  lemma FrontShifts(r: seq<int>, z: int, y: int)
    requires y in r && y != z
    ensures Find([z] + Without(r, z), y) == Find(r, y) + if Find(r, y) < Find(r, z) then 1 else 0
  {
    FindDiffers(r, y, z);
    FindBehind(Without(r, z), z, y);
    var v := Find(r, z);
    if v < |r| {
      if Find(r, y) < v {
        CutBefore(r, v, y);
      } else {
        CutAfter(r, v, y);
      }
    }
  }

  lemma ListedRecent(history: seq<int>, x: int)
    ensures x in history <==> x in Recent(history)
  {
    RecentHolds(history);
    assert x in history <==> x in Elems(history);
    assert x in Recent(history) <==> x in Elems(Recent(history));
  }

  /** Moving z to the front puts it ahead of everything and leaves the rest in order. */
  lemma FrontOrder(r: seq<int>, z: int, x: int, y: int)
    requires x != y && (x == z || x in r) && (y == z || y in r)
    ensures var r' := [z] + Without(r, z);
            Find(r', y) < Find(r', x) <==> x != z && (y == z || Find(r, y) < Find(r, x))
  {
    FindIs([z] + Without(r, z), z, 0);
    if x != z {
      FrontShifts(r, z, x);
      FindDiffers(r, x, z);
    }
    if y != z {
      FrontShifts(r, z, y);
      FindDiffers(r, y, z);
    }
    if x != z && y != z {
      FindDiffers(r, x, y);
    }
  }

  lemma FindDiffers(list: seq<int>, x: int, y: int)
    requires x in list && x != y
    ensures Find(list, x) < |list| && Find(list, x) != Find(list, y)
  {
    FindAt(list, x);
    FindAt(list, y);
  }

  /** In the recency list, y is ahead of x exactly when y has been accessed since x was. */
  lemma {:induction false} AheadIsSince(history: seq<int>, x: int, y: int)
    requires x in history && y in history && x != y
    ensures Find(Recent(history), y) < Find(Recent(history), x) <==> y in Since(history, x)
  {
    var n := |history| - 1;
    var z, before := history[n], history[..n];
    assert history == before + [z];
    RecentAppend(before, z);
    ListedRecent(before, x);
    ListedRecent(before, y);
    FrontOrder(Recent(before), z, x, y);
    if z != x && z != y {
      AheadIsSince(before, x, y);
    }
  }

  /** The position of x in the recency list is the number of lines accessed since x was. */
  lemma PositionIsDistance(history: seq<int>, x: int)
    requires x in history
    ensures Find(Recent(history), x) == |Since(history, x)| < |Recent(history)|
  {
    var r := Recent(history);
    var w := Find(r, x);
    ListedRecent(history, x);
    AheadSet(history, x);
    RecentHolds(history);
    FindDiffers(r, x, x + 1);
    PrefixCard(r, w);
  }

  lemma PrefixCard(r: seq<int>, w: int)
    requires Distinct(r) && 0 <= w <= |r|
    ensures |Elems(r[..w])| == w
  {
    ElemsCard(r[..w]);
  }

  lemma AheadSet(history: seq<int>, x: int)
    requires x in history
    ensures Elems(Recent(history)[..Find(Recent(history), x)]) == Since(history, x)
  {
    var ahead := Recent(history)[..Find(Recent(history), x)];
    forall y ensures y in ahead <==> y in Since(history, x) {
      AheadInSince(history, x, y);
    }
  }

  lemma AheadInSince(history: seq<int>, x: int, y: int)
    requires x in history
    ensures y in Recent(history)[..Find(Recent(history), x)] <==> y in Since(history, x)
  {
    var r := Recent(history);
    ListedRecent(history, x);
    ListedRecent(history, y);
    SinceIn(history, x);
    FindAt(r, x);
    FindAt(r, y);
    if y in history && y != x {
      AheadIsSince(history, x, y);
      if Find(r, y) < Find(r, x) {
        assert r[..Find(r, x)][Find(r, y)] == y;
      }
    }
  }

  lemma {:induction false} SinceIn(history: seq<int>, x: int)
    ensures x !in Since(history, x) && forall y | y in Since(history, x) :: y in history
  {
    if history != [] {
      SinceIn(history[..|history| - 1], x);
    }
  }

  /** The accesses of one set, over all intervals. */
  ghost function History(run: seq<Event>, s: int): seq<int> {
    if run == [] then []
    else
      var e := run[|run| - 1];
      var h := History(run[..|run| - 1], s);
      if e.Access? && e.set_ == s then h + [e.x] else h
  }

  lemma FindNone(list: seq<int>, x: int)
    requires x !in list
    ensures Find(list, x) == |list|
  {
    FindAt(list, x);
  }

  lemma FindInFront(list: seq<int>, tail: seq<int>, x: int)
    requires x in list
    ensures Find(list + tail, x) == Find(list, x) < |list|
  {
    FindAt(list, x);
    FindIs(list + tail, x, Find(list, x));
  }

  /** A line that is not in the list is found among the zeros only if it is line 0, and then at their start. */
  lemma FindInZeros(list: seq<int>, n: nat, x: int)
    requires x !in list && n > 0
    ensures Find(list + Zeros(n), x) == if x == 0 then |list| else |list| + n
  {
    FindIs(list + Zeros(n), x, if x == 0 then |list| else |list| + n);
  }

  /** The line goes to the front of the recency list, and the last of the unused places fills up. */
  lemma TouchLonger(r: seq<int>, ways: nat, x: int)
    requires ways > 0
    ensures Touch(r + Zeros(ways), x)[..ways] == ([x] + Without(r, x) + Zeros(ways))[..ways]
  {
    var full := r + Zeros(ways);
    if x in r {
      FindInFront(r, Zeros(ways), x);
      var w := Find(r, x);
      assert Cut(full, w) == Cut(r, w) + Zeros(ways);
      assert [x] + (Cut(r, w) + Zeros(ways)) == [x] + Cut(r, w) + Zeros(ways);
    } else {
      FindNone(r, x);
      FindInZeros(r, ways, x);
      var w := if x == 0 then |r| else |full| - 1;
      assert Touch(full, x) == [x] + Cut(full, w);
      assert Cut(full, w) == r + Zeros(ways - 1);
      assert ([x] + (r + Zeros(ways - 1)))[..ways] == ([x] + r + Zeros(ways))[..ways];
    }
  }

  lemma TouchRecent(r: seq<int>, ways: nat, x: int)
    requires ways > 0
    ensures Touch((r + Zeros(ways))[..ways], x) == ([x] + Without(r, x) + Zeros(ways))[..ways]
  {
    TouchPrefix(r + Zeros(ways), ways, x);
    TouchLonger(r, ways, x);
  }

  /** Each set holds its most recently accessed lines, in order, and zeros where none has been yet. */
  lemma {:induction false} HoldsRecent(run: seq<Event>, sets: nat, ways: nat, s: int)
    requires InSets(run, sets) && ways > 0 && 0 <= s < sets
    ensures Run(run, sets, ways).sets[s] == (Recent(History(run, s)) + Zeros(ways))[..ways]
  {
    if run == [] {
      assert ([] + Zeros(ways))[..ways] == Zeros(ways);
    } else {
      var before, e := run[..|run| - 1], run[|run| - 1];
      HoldsRecent(before, sets, ways, s);
      var h := History(before, s);
      var c := Run(before, sets, ways);
      assert before + [e] == run;
      if e.Access? && e.set_ == s {
        RecentAppend(h, e.x);
        TouchRecent(Recent(h), ways, e.x);
        assert Run(run, sets, ways).sets[s] == Touch(c.sets[s], e.x);
      } else {
        assert Run(run, sets, ways).sets[s] == c.sets[s];
      }
    }
  }

  lemma RecentAppend(h: seq<int>, x: int)
    ensures Recent(h + [x]) == [x] + Without(Recent(h), x)
  {
    assert (h + [x])[..|h|] == h;
  }

  /** The position at which an access to x hits after a history of its set: the number of distinct lines
      accessed since x was. An address that was never accessed misses, but for 0: every unused place holds 0,
      so a first access to line 0 hits behind all the lines accessed so far. */
  ghost function Distance(h: seq<int>, ways: nat, x: int): int {
    if x in h then |Since(h, x)| else if x == 0 then |Elems(h)| else ways
  }

  /** Where the next access to x of set s will hit: at its distance, if that is within the ways; else it misses. */
  lemma HitIsReuseDistance(run: seq<Event>, sets: nat, ways: nat, s: int, x: int)
    requires InSets(run, sets) && ways > 0 && 0 <= s < sets
    ensures var d := Distance(History(run, s), ways, x);
            Find(Run(run, sets, ways).sets[s], x) == if d < ways then d else ways
  {
    var h := History(run, s);
    HoldsRecent(run, sets, ways, s);
    RecentHolds(h);
    ListedRecent(h, x);
    var r := Recent(h);
    ElemsCard(r);
    if x in h {
      PositionIsDistance(h, x);
      FindInFront(r, Zeros(ways), x);
    } else {
      FindInZeros(r, ways, x);
    }
    TouchPrefix(r + Zeros(ways), ways, x);
  }

  // ---------------------------------------------------------------- the monitor itself

  /** A list element; next is the index of the next one, or -1 for the null pointer. */
  datatype Node = Node(addr: int, next: int)

  /** The nodes form one list from head, in the given order. */
  ghost predicate Linked(nodes: seq<Node>, head: int, order: seq<int>) {
    && |order| == |nodes| > 0 && order[0] == head
    && (forall i {:trigger LinkOk(nodes, order, i)} | 0 <= i < |order| :: LinkOk(nodes, order, i))
    && Distinct(order)
  }

  ghost predicate LinkOk(nodes: seq<Node>, order: seq<int>, i: int)
    requires |order| == |nodes| && 0 <= i < |order|
  {
    0 <= order[i] < |nodes| && nodes[order[i]].next == if i + 1 < |order| then order[i + 1] else -1
  }

  ghost function Contents(nodes: seq<Node>, head: int, order: seq<int>): (r: seq<int>)
    requires Linked(nodes, head, order)
    ensures |r| == |order|
  {
    seq(|order|, i requires 0 <= i < |order| => assert LinkOk(nodes, order, i); nodes[order[i]].addr)
  }

  lemma ContentAt(nodes: seq<Node>, head: int, order: seq<int>, i: int)
    requires Linked(nodes, head, order) && 0 <= i < |order|
    ensures LinkOk(nodes, order, i) && Contents(nodes, head, order)[i] == nodes[order[i]].addr
  {
    assert LinkOk(nodes, order, i);
  }

  /** Unlinks cur, whose predecessor is prev, and puts it at the head. */
  function Relink(nodes: seq<Node>, head: int, prev: int, cur: int): seq<Node>
    requires 0 <= prev < |nodes| && 0 <= cur < |nodes|
  {
    var unlinked := nodes[prev := nodes[prev].(next := nodes[cur].next)];
    unlinked[cur := unlinked[cur].(next := head)]
  }

  ghost function Moved(order: seq<int>, w: int): (r: seq<int>)
    requires 0 <= w < |order|
    ensures |r| == |order|
    ensures forall i | 0 <= i < |order| :: r[i] == order[if i == 0 then w else if i <= w then i - 1 else i]
  {
    [order[w]] + Cut(order, w)
  }

  lemma RelinkLinks(nodes: seq<Node>, head: int, order: seq<int>, w: int)
    requires Linked(nodes, head, order) && 0 < w < |order|
    ensures LinkOk(nodes, order, w - 1) && LinkOk(nodes, order, w)
    ensures Linked(Relink(nodes, head, order[w - 1], order[w]), order[w], Moved(order, w))
  {
    var prev, cur := order[w - 1], order[w];
    assert LinkOk(nodes, order, w - 1) && LinkOk(nodes, order, w);
    var nodes', order' := Relink(nodes, head, prev, cur), Moved(order, w);
    forall i | 0 <= i < |order| ensures LinkOk(nodes', order', i) {
      var j := if i == 0 then w else if i <= w then i - 1 else i;
      assert LinkOk(nodes, order, j);
      assert i == w ==> order'[i] == prev;
      assert 0 < i != w ==> order'[i] != prev && order'[i] != cur;
    }
  }

  lemma RelinkContents(nodes: seq<Node>, head: int, order: seq<int>, w: int)
    requires Linked(nodes, head, order) && 0 < w < |order|
    requires 0 <= order[w - 1] < |nodes| && 0 <= order[w] < |nodes|
    requires Linked(Relink(nodes, head, order[w - 1], order[w]), order[w], Moved(order, w))
    ensures Contents(Relink(nodes, head, order[w - 1], order[w]), order[w], Moved(order, w))
         == [Contents(nodes, head, order)[w]] + Cut(Contents(nodes, head, order), w)
  {
    var nodes', order' := Relink(nodes, head, order[w - 1], order[w]), Moved(order, w);
    forall i | 0 <= i < |order|
      ensures Contents(nodes', order[w], order')[i] == Moved(Contents(nodes, head, order), w)[i]
    {
      ContentAt(nodes', order[w], order', i);
      ContentAt(nodes, head, order, if i == 0 then w else if i <= w then i - 1 else i);
    }
  }

  /** Writing an address keeps the links. */
  lemma WriteKeeps(nodes: seq<Node>, head: int, order: seq<int>, w: int, x: int)
    requires Linked(nodes, head, order) && 0 <= w < |order|
    ensures LinkOk(nodes, order, w)
    ensures var nodes' := nodes[order[w] := nodes[order[w]].(addr := x)];
            Linked(nodes', head, order) && Contents(nodes', head, order) == Contents(nodes, head, order)[w := x]
  {
    assert LinkOk(nodes, order, w);
    var nodes' := nodes[order[w] := nodes[order[w]].(addr := x)];
    forall i | 0 <= i < |order| ensures LinkOk(nodes', order, i) {
      assert LinkOk(nodes, order, i);
    }
    forall i | 0 <= i < |order| ensures Contents(nodes', head, order)[i] == Contents(nodes, head, order)[w := x][i] {
      ContentAt(nodes, head, order, i);
      ContentAt(nodes', head, order, i);
    }
  }

  ghost predicate IsPowerOfTwo(p: nat) {
    p == 1 || (p > 1 && p % 2 == 0 && IsPowerOfTwo(p / 2))
  }

  /** The largest power of two that is at most n, for n at least 1; 1 for 0. */
  function PowerBelow(n: nat): (p: nat)
    ensures p >= 1 && (n >= 1 ==> p <= n < 2 * p) && IsPowerOfTwo(p)
  {
    if n <= 1 then 1 else 2 * PowerBelow(n / 2)
  }

  /** The nodes, head and order of every set. */
  ghost predicate SetLinked(heads: seq<int>, arrays: seq<seq<Node>>, orders: seq<seq<int>>, buckets: int, s: int)
    requires |heads| == |arrays| == |orders| && 0 <= s < |heads|
  {
    |arrays[s]| == buckets && Linked(arrays[s], heads[s], orders[s])
  }

  ghost predicate AllLinked(heads: seq<int>, arrays: seq<seq<Node>>, orders: seq<seq<int>>, buckets: int) {
    && |heads| == |arrays| == |orders|
    && forall s {:trigger SetLinked(heads, arrays, orders, buckets, s)} | 0 <= s < |heads| ::
      SetLinked(heads, arrays, orders, buckets, s)
  }

  ghost function ListOf(heads: seq<int>, arrays: seq<seq<Node>>, orders: seq<seq<int>>, buckets: int,
                        s: int): (r: seq<int>)
    requires AllLinked(heads, arrays, orders, buckets) && 0 <= s < |heads|
    ensures |r| == buckets
  {
    assert SetLinked(heads, arrays, orders, buckets, s);
    Contents(arrays[s], heads[s], orders[s])
  }

  ghost function Lists(heads: seq<int>, arrays: seq<seq<Node>>, orders: seq<seq<int>>, buckets: int): (r: seq<seq<int>>)
    requires AllLinked(heads, arrays, orders, buckets)
    ensures |r| == |heads| && forall s | 0 <= s < |r| :: |r[s]| == buckets
  {
    seq(|heads|, s requires 0 <= s < |heads| => ListOf(heads, arrays, orders, buckets, s))
  }

  lemma StoreLinks(heads: seq<int>, arrays: seq<seq<Node>>, orders: seq<seq<int>>, buckets: int, s: int, head: int,
                   nodes: seq<Node>, order: seq<int>)
    requires AllLinked(heads, arrays, orders, buckets) && 0 <= s < |heads|
    requires |nodes| == buckets && Linked(nodes, head, order)
    ensures AllLinked(heads[s := head], arrays[s := nodes], orders[s := order], buckets)
    ensures Lists(heads[s := head], arrays[s := nodes], orders[s := order], buckets)
         == Lists(heads, arrays, orders, buckets)[s := Contents(nodes, head, order)]
  {
    var h, a, o := heads[s := head], arrays[s := nodes], orders[s := order];
    forall t | 0 <= t < |heads| ensures SetLinked(h, a, o, buckets, t) {
      assert SetLinked(heads, arrays, orders, buckets, t);
    }
    var before, after := Lists(heads, arrays, orders, buckets), Lists(h, a, o, buckets);
    forall t | 0 <= t < |heads| ensures after[t] == if t == s then Contents(nodes, head, order) else before[t] {
    }
  }

  /** Nodes 0, 1, ..., n-1, each linked to the next. */
  function Chain(n: nat): seq<Node> {
    seq(n, j => Node(0, if j + 1 < n then j + 1 else -1))
  }

  function Upto(n: nat): seq<int> {
    seq(n, j => j)
  }

  lemma StartsEmpty(sets: nat, buckets: nat)
    requires buckets > 0
    ensures AllLinked(Zeros(sets), seq(sets, _ => Chain(buckets)), seq(sets, _ => Upto(buckets)), buckets)
    ensures Lists(Zeros(sets), seq(sets, _ => Chain(buckets)), seq(sets, _ => Upto(buckets)), buckets)
      == seq(sets, _ => Zeros(buckets))
  {
    var h, a, o := Zeros(sets), seq(sets, _ => Chain(buckets)), seq(sets, _ => Upto(buckets));
    forall s | 0 <= s < sets ensures SetLinked(h, a, o, buckets, s) {
      forall i | 0 <= i < buckets ensures LinkOk(a[s], o[s], i) {
      }
    }
    forall s | 0 <= s < sets ensures Lists(h, a, o, buckets)[s] == Zeros(buckets) {
    }
  }

  /** Node cur takes address x if the access missed, and moves to the front of its list. */
  method ToFront(nodes: seq<Node>, head: int, ghost order: seq<int>, x: int, hit: bool, ghost w: int, prev: int,
                 cur: int)
    returns (nodes': seq<Node>, head': int, ghost order': seq<int>)
    requires Linked(nodes, head, order) && 0 <= w < |order|
    requires hit ==> Contents(nodes, head, order)[w] == x
    requires cur == order[w] && prev == if w > 0 then order[w - 1] else -1
    ensures |nodes'| == |nodes| && Linked(nodes', head', order')
    ensures Contents(nodes', head', order') == [x] + Cut(Contents(nodes, head, order), w)
  {
    WriteKeeps(nodes, head, order, w, x);
    ContentAt(nodes, head, order, w);
    if w > 0 {
      ContentAt(nodes, head, order, w - 1);
    }
    nodes', head', order' := nodes, head, order;
    if !hit {
      nodes' := nodes[cur := nodes[cur].(addr := x)];
    }
    ghost var list, written := Contents(nodes, head, order), Contents(nodes', head, order);
    assert written == list[w := x];
    assert Cut(written, w) == Cut(list, w);
    if prev != -1 {
      RelinkLinks(nodes', head, order, w);
      RelinkContents(nodes', head, order, w);
      nodes' := Relink(nodes', head, prev, cur);
      head' := cur;
      order' := Moved(order, w);
    } else {
      assert written == [written[0]] + Cut(written, 0);
    }
  }

  class UMon {
    const sets: int
    const buckets: int
    /** Accesses are sampled when the first hash is 0 modulo sampleMod; the second hash modulo setMod is the set. */
    const sampleMod: int
    const setMod: int
    const hash0: int -> nat
    const hash1: int -> nat
    var heads: seq<int>
    var array_: seq<seq<Node>>
    var curWayHits: seq<int>
    var curMisses: int
    ghost var order: seq<seq<int>>
    /** What the monitored sets have been given so far. */
    ghost var run: seq<Event>

    /** The monitor is the LRU cache of `buckets` ways that was given the run. */
    ghost predicate Valid()
      reads this
    {
      Shaped() && InSets(run, sets) && Abs() == Run(run, sets, buckets)
    }

    ghost predicate Shaped()
      reads this
    {
      && sets >= 1 && buckets >= 1 && sampleMod >= 1 && 1 <= setMod <= sets
      && |heads| == sets && |curWayHits| == buckets && AllLinked(heads, array_, order, buckets)
    }

    /** The cache the monitor stands for. */
    ghost function Abs(): (c: Cache)
      requires Shaped()
      reads this
      ensures c.Ways(buckets) && |c.sets| == sets && |c.hits| == buckets
    {
      Cache(Lists(heads, array_, order, buckets), curWayHits, curMisses)
    }

    constructor (bankLines: nat, umonLines: nat, buckets_: nat, h0: int -> nat, h1: int -> nat)
      requires buckets_ >= 1 && umonLines >= buckets_
      ensures Valid() && buckets == buckets_ && sets == umonLines / buckets_
      ensures sampleMod == PowerBelow(bankLines / umonLines) && setMod == PowerBelow(umonLines / buckets_)
      ensures IsPowerOfTwo(sampleMod) && IsPowerOfTwo(setMod) && setMod <= sets < 2 * setMod
      ensures bankLines >= umonLines ==> sampleMod <= bankLines / umonLines < 2 * sampleMod
      ensures hash0 == h0 && hash1 == h1 && run == []
    {
      buckets := buckets_;
      sets := umonLines / buckets_;
      sampleMod := PowerBelow(bankLines / umonLines);
      setMod := PowerBelow(umonLines / buckets_);
      hash0, hash1 := h0, h1;
      heads := Zeros(umonLines / buckets_);
      array_ := seq(umonLines / buckets_, _ => Chain(buckets_));
      order := seq(umonLines / buckets_, _ => Upto(buckets_));
      curWayHits := Zeros(buckets_);
      curMisses := 0;
      run := [];
      new;
      StartsEmpty(sets, buckets);
    }

    /** Walks the list of a set: where x is, or the last node; and the node before it, or -1. */
    method Search(s: int, x: int) returns (hit: bool, way: int, prev: int, cur: int)
      requires Shaped() && 0 <= s < sets
      ensures way == Find(Abs().sets[s], x) && (hit <==> way < buckets)
      ensures |order[s]| == buckets
      ensures var w := if hit then way else buckets - 1;
              cur == order[s][w] && prev == if w > 0 then order[s][w - 1] else -1
    {
      assert SetLinked(heads, array_, order, buckets, s);
      prev, cur, hit := -1, heads[s], false;
      ghost var o, list := order[s], Abs().sets[s];
      var b := 0;
      while b < buckets
        invariant 0 <= b <= buckets
        invariant var w := if b < buckets then b else buckets - 1; cur == o[w] && prev == if w > 0 then o[w - 1] else -1
        invariant forall i | 0 <= i < b :: list[i] != x
      {
        assert LinkOk(array_[s], o, b);
        if array_[s][cur].addr == x {
          FindIs(list, x, b);
          return true, b, prev, cur;
        } else if b < buckets - 1 {
          prev := cur;
          cur := array_[s][cur].next;
        }
        b := b + 1;
      }
      FindIs(list, x, buckets);
      way := buckets;
    }

    method Access(lineAddr: int)
      requires Valid()
      modifies this
      ensures Valid()
      ensures run == if hash0(lineAddr) % sampleMod != 0 then old(run)
                     else old(run) + [Event.Access(hash1(lineAddr) % setMod, lineAddr)]
    {
      if hash0(lineAddr) % sampleMod != 0 {
        return;
      }
      var s := hash1(lineAddr) % setMod;
      Record(s, lineAddr);
      RunAppend(run, Event.Access(s, lineAddr), sets, buckets);
      run := run + [Event.Access(s, lineAddr)];
    }

    /** A sampled access: the walk of the list, the move to the front, and the counter. */
    method Record(s: int, x: int)
      requires Shaped() && 0 <= s < sets
      modifies this`heads, this`array_, this`order, this`curWayHits, this`curMisses
      ensures Shaped() && Abs() == old(Abs()).Access(s, x)
    {
      ghost var before := Abs();
      var hit, way, prev, cur := Search(s, x);
      FindAt(before.sets[s], x);
      Place(s, x, hit, if hit then way else buckets - 1, prev, cur);
      assert Abs().sets == before.Access(s, x).sets;
      if hit {
        curWayHits := curWayHits[way := curWayHits[way] + 1];
      } else {
        curMisses := curMisses + 1;
      }
    }

    /** Puts x at node cur, the w-th of the set, if it missed, and makes cur the most recent. */
    method Place(s: int, x: int, hit: bool, ghost w: int, prev: int, cur: int)
      requires Shaped() && 0 <= s < sets && 0 <= w < buckets && |order[s]| == buckets
      requires hit ==> Abs().sets[s][w] == x
      requires cur == order[s][w] && prev == if w > 0 then order[s][w - 1] else -1
      modifies this`heads, this`array_, this`order
      ensures Shaped() && Abs().sets == old(Abs().sets)[s := [x] + Cut(old(Abs().sets[s]), w)]
    {
      assert SetLinked(heads, array_, order, buckets, s);
      var nodes, head, o := ToFront(array_[s], heads[s], order[s], x, hit, w, prev, cur);
      StoreLinks(heads, array_, order, buckets, s, head, nodes, o);
      heads, array_, order := heads[s := head], array_[s := nodes], order[s := o];
    }

    /** The miss curve of the interval: entry 0 counts every access, entry k what a k-way cache given the same
        run would have missed; it never rises. */
    method GetMisses(misses: array<int>)
      requires Valid() && misses.Length == buckets + 1
      modifies misses
      ensures misses[0] == Accesses(run)
      ensures forall k | 1 <= k <= buckets :: misses[k] == Run(run, sets, k).misses
      ensures forall k | 0 <= k < buckets :: misses[k] >= misses[k + 1]
    {
      ghost var c := Abs();
      var total := curMisses;
      var i := 0;
      while i < buckets
        invariant 0 <= i <= buckets && total == c.MissesOf(buckets - i)
        invariant forall k | buckets - i < k <= buckets :: misses[k] == c.MissesOf(k)
      {
        misses[buckets - i] := total;
        SumFrom(c.hits, buckets - i - 1);
        total := total + curWayHits[buckets - i - 1];
        i := i + 1;
      }
      misses[0] := total;
      MissCurve(run, sets, buckets, misses[..]);
    }

    method GetNumAccesses() returns (total: int)
      requires Valid()
      ensures total == Accesses(run)
    {
      ghost var c := Abs();
      total := curMisses;
      var i := 0;
      while i < buckets
        invariant 0 <= i <= buckets && total == c.MissesOf(buckets - i)
      {
        SumFrom(c.hits, buckets - i - 1);
        total := total + curWayHits[buckets - i - 1];
        i := i + 1;
      }
      assert c.hits[0..] == c.hits;
      AllCounted(run, sets, buckets);
    }

    method StartNextInterval()
      requires Valid()
      modifies this`curMisses, this`curWayHits, this`run
      ensures Valid() && run == old(run) + [NextInterval]
    {
      curMisses := 0;
      var b := 0;
      while b < buckets
        invariant 0 <= b <= buckets == |curWayHits| && curMisses == 0 && run == old(run)
        invariant forall i | 0 <= i < b :: curWayHits[i] == 0
      {
        curWayHits := curWayHits[b := 0];
        b := b + 1;
      }
      assert Abs() == old(Abs()).Restart();
      RunAppend(run, NextInterval, sets, buckets);
      run := run + [NextInterval];
    }
  }
}
