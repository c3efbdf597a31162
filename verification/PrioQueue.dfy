/** The calendar queue of the weave phase: B blocks of 64 one-cycle slots for the near future, and a sorted
    multimap for what lies further ahead. To its users it is a multiset of (cycle, element) pairs that gives
    up a pair of least cycle.
 */
module PrioQueue {
  import opened Arith

  /** 64 slots, each a last-in first-out list; bit i of occ tells whether slot i is populated. */
  datatype PQBlock<T> = PQBlock(slots: seq<seq<T>>, occ: seq<bool>) {
    ghost predicate Ok() {
      && |slots| == |occ| == 64
      && forall i | 0 <= i < 64 :: occ[i] <==> slots[i] != []
    }

    predicate Any() {
      exists i :: 0 <= i < |occ| && occ[i]
    }

    /** The number of the lowest bit that is set. */
    function Ctz(i: nat := 0): (pos: int)
      requires i <= |occ| && exists j :: i <= j < |occ| && occ[j]
      ensures i <= pos < |occ| && occ[pos]
      ensures forall j | i <= j < pos :: !occ[j]
      decreases |occ| - i
    {
      if occ[i] then i else Ctz(i + 1)
    }

    function Enqueue(obj: T, pos: int): (b: PQBlock<T>)
      requires 0 <= pos < |slots| && |slots| == |occ|
      ensures Ok() ==> b.Ok()
    {
      PQBlock(slots[pos := [obj] + slots[pos]], occ[pos := true])
    }

    /** The block without the first element of its first populated slot. */
    function Dequeue(): (b: PQBlock<T>)
      requires Ok() && Any()
      ensures b.Ok()
    {
      var pos := Ctz();
      var next := slots[pos][1..];
      PQBlock(slots[pos := next], if next == [] then occ[pos := false] else occ)
    }
  }

  function Empty<T>(): (b: PQBlock<T>)
    ensures b.Ok()
  {
    PQBlock(seq(64, _ => []), seq(64, _ => false))
  }

  // ---------------------------------------------------------------- contents

  ghost predicate AllOk<T>(blocks: seq<PQBlock<T>>) {
    |blocks| >= 1 && forall i | 0 <= i < |blocks| :: blocks[i].Ok()
  }

  /** The slot that holds cycle c, if c lies in the window of blocks that starts at curBlock. */
  ghost function NearAt<T>(blocks: seq<PQBlock<T>>, curBlock: int, c: int): seq<T>
    requires AllOk(blocks)
  {
    if curBlock <= c / 64 < curBlock + |blocks| then blocks[(c / 64) % |blocks|].slots[c % 64] else []
  }

  /** content holds exactly what the slots and the far map hold, with multiplicities. */
  ghost predicate Represents<T(!new)>(content: multiset<(int, T)>, blocks: seq<PQBlock<T>>, curBlock: int,
                                      far: seq<(int, T)>)
    requires AllOk(blocks)
  {
    forall c: int, x: T {:trigger CountsAt(content, blocks, curBlock, far, c, x)} ::
      CountsAt(content, blocks, curBlock, far, c, x)
  }

  ghost predicate CountsAt<T>(content: multiset<(int, T)>, blocks: seq<PQBlock<T>>, curBlock: int, far: seq<(int, T)>,
                              c: int, x: T)
    requires AllOk(blocks)
  {
    content[(c, x)] == multiset(NearAt(blocks, curBlock, c))[x] + multiset(far)[(c, x)]
  }

  ghost predicate Sorted<T>(far: seq<(int, T)>) {
    forall i, j | 0 <= i < j < |far| :: far[i].0 <= far[j].0
  }

  /** The last multiple of half the window at or before a block: where far elements were last moved in. */
  function Boundary(curBlock: int, B: int): int
    requires B >= 2
  {
    curBlock - curBlock % (B / 2)
  }

  ghost predicate FarBeyond<T>(far: seq<(int, T)>, curBlock: int, B: int)
    requires B >= 2
  {
    forall i {:trigger IsFar(far, i, curBlock, B)} | 0 <= i < |far| :: IsFar(far, i, curBlock, B)
  }

  ghost predicate IsFar<T>(far: seq<(int, T)>, i: int, curBlock: int, B: int)
    requires B >= 2 && 0 <= i < |far|
  {
    far[i].0 / 64 >= Boundary(curBlock, B) + B
  }

  lemma BoundaryNear(curBlock: int, B: int)
    requires B >= 2 && curBlock >= 0
    ensures curBlock - (B / 2 - 1) <= Boundary(curBlock, B) <= curBlock
  {
    ModBounds(curBlock, B / 2);
  }

  /** Between boundaries the boundary does not move. */
  lemma BoundaryStays(curBlock: int, B: int)
    requires B >= 2 && curBlock >= 0
    ensures Boundary(curBlock + 1, B) == if (curBlock + 1) % (B / 2) == 0 then curBlock + 1 else Boundary(curBlock, B)
  {
    var h := B / 2;
    DivMod(curBlock, h);
    DivMod(curBlock + 1, h);
    DivMono(curBlock, curBlock + 1, h);
    var d, e := curBlock / h, (curBlock + 1) / h;
    if e > d {
      MulMono(h, d + 1, e);
      assert h * (d + 1) == h * d + h;
    }
  }

  // ---------------------------------------------------------------- steps on the representation

  /** Two cycles of the window share a slot only if they are the same. */
  lemma SlotsDistinct(n: int, curBlock: int, c: int, d: int)
    requires n >= 1
    requires curBlock <= c / 64 < curBlock + n && curBlock <= d / 64 < curBlock + n
    requires (c / 64) % n == (d / 64) % n && c % 64 == d % 64
    ensures c == d
  {
    if c / 64 < d / 64 {
      ModDiffers(c / 64, d / 64, n);
    } else if d / 64 < c / 64 {
      ModDiffers(d / 64, c / 64, n);
    }
  }

  function PutNear<T>(blocks: seq<PQBlock<T>>, obj: T, c: int): (r: seq<PQBlock<T>>)
    requires |blocks| >= 1 && forall i | 0 <= i < |blocks| :: |blocks[i].slots| == |blocks[i].occ| == 64
    ensures |r| == |blocks|
  {
    var i := (c / 64) % |blocks|;
    blocks[i := blocks[i].Enqueue(obj, c % 64)]
  }

  lemma NearAfterPut<T>(blocks: seq<PQBlock<T>>, curBlock: int, obj: T, c: int, d: int)
    requires AllOk(blocks) && curBlock <= c / 64 < curBlock + |blocks|
    ensures AllOk(PutNear(blocks, obj, c))
    ensures NearAt(PutNear(blocks, obj, c), curBlock, d)
      == if d == c then [obj] + NearAt(blocks, curBlock, c) else NearAt(blocks, curBlock, d)
  {
    var n := |blocks|;
    ModBounds(c / 64, n);
    if d != c && curBlock <= d / 64 < curBlock + n {
      ModBounds(d / 64, n);
      if (d / 64) % n == (c / 64) % n && d % 64 == c % 64 {
        SlotsDistinct(n, curBlock, c, d);
      }
    }
  }

  /** A new element of the window. */
  lemma PutRepresents<T(!new)>(content: multiset<(int, T)>, blocks: seq<PQBlock<T>>, curBlock: int,
                               far: seq<(int, T)>, obj: T, c: int)
    requires AllOk(blocks) && curBlock <= c / 64 < curBlock + |blocks|
    requires Represents(content, blocks, curBlock, far)
    ensures AllOk(PutNear(blocks, obj, c))
    ensures Represents(content + multiset{(c, obj)}, PutNear(blocks, obj, c), curBlock, far)
  {
    forall d: int, x: T
      ensures CountsAt(content + multiset{(c, obj)}, PutNear(blocks, obj, c), curBlock, far, d, x)
    {
      assert CountsAt(content, blocks, curBlock, far, d, x);
      NearAfterPut(blocks, curBlock, obj, c, d);
    }
    NearAfterPut(blocks, curBlock, obj, c, c);
  }

  /** A new far element. */
  lemma FarRepresents<T(!new)>(content: multiset<(int, T)>, blocks: seq<PQBlock<T>>, curBlock: int,
                               far: seq<(int, T)>, at: int, obj: T, c: int)
    requires AllOk(blocks) && Represents(content, blocks, curBlock, far)
    requires 0 <= at <= |far|
    ensures Represents(content + multiset{(c, obj)}, blocks, curBlock, far[..at] + [(c, obj)] + far[at..])
  {
    assert far == far[..at] + far[at..];
    assert multiset(far[..at] + [(c, obj)] + far[at..]) == multiset(far) + multiset{(c, obj)};
    forall d: int, x: T
      ensures CountsAt(content + multiset{(c, obj)}, blocks, curBlock, far[..at] + [(c, obj)] + far[at..], d, x)
    {
      assert CountsAt(content, blocks, curBlock, far, d, x);
    }
  }

  lemma FarStaysFar<T>(far: seq<(int, T)>, at: int, obj: T, c: int, curBlock: int, B: int)
    requires B >= 2 && 0 <= at <= |far| && Sorted(far) && FarBeyond(far, curBlock, B)
    requires forall i | 0 <= i < at :: far[i].0 <= c
    requires forall i | at <= i < |far| :: far[i].0 > c
    requires c / 64 >= Boundary(curBlock, B) + B
    ensures Sorted(far[..at] + [(c, obj)] + far[at..])
    ensures FarBeyond(far[..at] + [(c, obj)] + far[at..], curBlock, B)
  {
    var far' := far[..at] + [(c, obj)] + far[at..];
    forall i | 0 <= i < |far'| ensures IsFar(far', i, curBlock, B) {
      if i != at {
        assert IsFar(far, if i < at then i else i - 1, curBlock, B);
      }
    }
  }

  /** Moving the first far element into the window. */
  lemma MigrateRepresents<T(!new)>(content: multiset<(int, T)>, blocks: seq<PQBlock<T>>, curBlock: int,
                                   far: seq<(int, T)>)
    requires AllOk(blocks) && far != [] && curBlock <= far[0].0 / 64 < curBlock + |blocks|
    requires Represents(content, blocks, curBlock, far)
    ensures AllOk(PutNear(blocks, far[0].1, far[0].0))
    ensures Represents(content, PutNear(blocks, far[0].1, far[0].0), curBlock, far[1..])
  {
    var (c, obj) := far[0];
    assert far == [(c, obj)] + far[1..];
    forall d: int, x: T
      ensures CountsAt(content, PutNear(blocks, obj, c), curBlock, far[1..], d, x)
    {
      assert CountsAt(content, blocks, curBlock, far, d, x);
      NearAfterPut(blocks, curBlock, obj, c, d);
    }
    NearAfterPut(blocks, curBlock, obj, c, c);
  }

  /** An empty first block can be left behind: its slots stand for a later block from then on. */
  lemma AdvanceRepresents<T(!new)>(content: multiset<(int, T)>, blocks: seq<PQBlock<T>>, curBlock: int,
                                   far: seq<(int, T)>)
    requires AllOk(blocks) && Represents(content, blocks, curBlock, far)
    requires !blocks[curBlock % |blocks|].Any()
    ensures Represents(content, blocks, curBlock + 1, far)
  {
    var n := |blocks|;
    ModBounds(curBlock, n);
    ModShift(curBlock, n);
    forall c: int ensures NearAt(blocks, curBlock + 1, c) == NearAt(blocks, curBlock, c) {
      if c / 64 == curBlock || c / 64 == curBlock + n {
        assert !blocks[curBlock % n].occ[c % 64];
      }
    }
    var next := curBlock + 1;
    forall c: int, x: T ensures CountsAt(content, blocks, next, far, c, x) {
      assert CountsAt(content, blocks, curBlock, far, c, x);
    }
  }

  /** The window after the first element of its first block is taken. */
  function TakeNear<T>(blocks: seq<PQBlock<T>>, curBlock: int): (r: seq<PQBlock<T>>)
    requires AllOk(blocks) && curBlock >= 0 && blocks[curBlock % |blocks|].Any()
    ensures |r| == |blocks| && AllOk(r)
  {
    blocks[curBlock % |blocks| := blocks[curBlock % |blocks|].Dequeue()]
  }

  /** The cycle of the first populated slot of the first block. */
  ghost function FirstNear<T>(blocks: seq<PQBlock<T>>, curBlock: int): (c: int)
    requires AllOk(blocks) && curBlock >= 0 && blocks[curBlock % |blocks|].Any()
    ensures c / 64 == curBlock && c % 64 == blocks[curBlock % |blocks|].Ctz()
  {
    curBlock * 64 + blocks[curBlock % |blocks|].Ctz()
  }

  ghost function FirstObj<T>(blocks: seq<PQBlock<T>>, curBlock: int): T
    requires AllOk(blocks) && curBlock >= 0 && blocks[curBlock % |blocks|].Any()
  {
    var b := blocks[curBlock % |blocks|];
    b.slots[b.Ctz()][0]
  }

  lemma NearTaken<T>(blocks: seq<PQBlock<T>>, curBlock: int)
    requires AllOk(blocks) && curBlock >= 0 && blocks[curBlock % |blocks|].Any()
    ensures var c := FirstNear(blocks, curBlock);
            NearAt(blocks, curBlock, c) == [FirstObj(blocks, curBlock)]
              + NearAt(TakeNear(blocks, curBlock), curBlock, c)
  {
    ModBounds(curBlock, |blocks|);
  }

  lemma NearUntaken<T>(blocks: seq<PQBlock<T>>, curBlock: int, d: int)
    requires AllOk(blocks) && curBlock >= 0 && blocks[curBlock % |blocks|].Any()
    requires d != FirstNear(blocks, curBlock)
    ensures NearAt(TakeNear(blocks, curBlock), curBlock, d) == NearAt(blocks, curBlock, d)
  {
    var n, c := |blocks|, FirstNear(blocks, curBlock);
    if curBlock <= d / 64 < curBlock + n {
      ModBounds(d / 64, n);
      if (d / 64) % n == curBlock % n && d % 64 == c % 64 {
        SlotsDistinct(n, curBlock, c, d);
      }
    }
  }

  lemma NearBefore<T>(blocks: seq<PQBlock<T>>, curBlock: int, d: int)
    requires AllOk(blocks) && curBlock >= 0 && blocks[curBlock % |blocks|].Any()
    requires d < FirstNear(blocks, curBlock)
    ensures NearAt(blocks, curBlock, d) == []
  {
    if d / 64 == curBlock {
      assert !blocks[curBlock % |blocks|].occ[d % 64];
    }
  }

  /** Taking the first element of the first populated slot. */
  lemma TakeRepresents<T(!new)>(content: multiset<(int, T)>, blocks: seq<PQBlock<T>>, curBlock: int, far: seq<(int, T)>)
    requires AllOk(blocks) && Represents(content, blocks, curBlock, far)
    requires curBlock >= 0 && blocks[curBlock % |blocks|].Any()
    ensures var c := FirstNear(blocks, curBlock);
            var obj := FirstObj(blocks, curBlock);
            && (c, obj) in content
            && Represents(content - multiset{(c, obj)}, TakeNear(blocks, curBlock), curBlock, far)
    ensures forall d: int | d < FirstNear(blocks, curBlock) :: NearAt(blocks, curBlock, d) == []
  {
    var c, obj := FirstNear(blocks, curBlock), FirstObj(blocks, curBlock);
    var content', blocks' := content - multiset{(c, obj)}, TakeNear(blocks, curBlock);
    forall d: int, x: T ensures CountsAt(content', blocks', curBlock, far, d, x) {
      CountAfterTake(content, blocks, curBlock, far, d, x);
    }
    forall d: int | d < c ensures NearAt(blocks, curBlock, d) == [] {
      NearBefore(blocks, curBlock, d);
    }
    NearTaken(blocks, curBlock);
    assert CountsAt(content, blocks, curBlock, far, c, obj);
  }

  lemma CountAfterTake<T(!new)>(content: multiset<(int, T)>, blocks: seq<PQBlock<T>>, curBlock: int,
                                far: seq<(int, T)>, d: int, x: T)
    requires AllOk(blocks) && Represents(content, blocks, curBlock, far)
    requires curBlock >= 0 && blocks[curBlock % |blocks|].Any()
    ensures var taken := (FirstNear(blocks, curBlock), FirstObj(blocks, curBlock));
            CountsAt(content - multiset{taken}, TakeNear(blocks, curBlock), curBlock, far, d, x)
  {
    assert CountsAt(content, blocks, curBlock, far, d, x);
    if d == FirstNear(blocks, curBlock) {
      NearTaken(blocks, curBlock);
    } else {
      NearUntaken(blocks, curBlock, d);
    }
  }

  /** Everything in the queue is near, or far and beyond the first half of the window. */
  lemma InWindow<T(!new)>(content: multiset<(int, T)>, blocks: seq<PQBlock<T>>, curBlock: int, far: seq<(int, T)>,
                          B: int, e: (int, T))
    requires AllOk(blocks) && |blocks| == B >= 2 && curBlock >= 0
    requires Represents(content, blocks, curBlock, far) && FarBeyond(far, curBlock, B)
    requires e in content
    ensures (NearAt(blocks, curBlock, e.0) != [] && curBlock <= e.0 / 64 < curBlock + B)
      || (e in far && e.0 / 64 > curBlock + B / 2)
  {
    BoundaryNear(curBlock, B);
    assert CountsAt(content, blocks, curBlock, far, e.0, e.1);
    if e in multiset(far) {
      assert e in far;
      var i :| 0 <= i < |far| && far[i] == e;
      assert IsFar(far, i, curBlock, B);
    }
  }

  /** The first populated cycle of the window's first block is the least one in the queue. */
  lemma FirstIsLeast<T(!new)>(content: multiset<(int, T)>, blocks: seq<PQBlock<T>>, curBlock: int, far: seq<(int, T)>,
                              B: int, first: int)
    requires AllOk(blocks) && |blocks| == B >= 2 && curBlock >= 0
    requires Represents(content, blocks, curBlock, far) && FarBeyond(far, curBlock, B)
    requires first / 64 <= curBlock && forall d: int | d < first :: NearAt(blocks, curBlock, d) == []
    ensures forall c: int, x: T | (c, x) in content :: first <= c
  {
    forall c: int, x: T | (c, x) in content ensures first <= c {
      InWindow(content, blocks, curBlock, far, B, (c, x));
    }
  }

  lemma FirstBlockEmpty<T(!new)>(content: multiset<(int, T)>, blocks: seq<PQBlock<T>>, curBlock: int,
                                 far: seq<(int, T)>, B: int, e: (int, T))
    requires AllOk(blocks) && |blocks| == B >= 2 && curBlock >= 0
    requires Represents(content, blocks, curBlock, far) && FarBeyond(far, curBlock, B)
    requires e in content && !blocks[curBlock % B].Any()
    ensures e.0 / 64 > curBlock
  {
    InWindow(content, blocks, curBlock, far, B, e);
    ModBounds(curBlock, B);
    assert !blocks[curBlock % B].occ[e.0 % 64];
  }

  lemma FarAhead<T>(far: seq<(int, T)>, curBlock: int, B: int)
    requires B >= 2 && curBlock >= 0 && FarBeyond(far, curBlock, B)
    ensures forall i | 0 <= i < |far| :: far[i].0 / 64 > curBlock + B / 2
  {
    BoundaryNear(curBlock, B);
    forall i | 0 <= i < |far| ensures far[i].0 / 64 > curBlock + B / 2 {
      assert IsFar(far, i, curBlock, B);
    }
  }

  /** Between boundaries what is far stays far. */
  lemma FarStays<T>(far: seq<(int, T)>, curBlock: int, B: int)
    requires B >= 2 && curBlock >= 0 && FarBeyond(far, curBlock, B)
    ensures (curBlock + 1) % (B / 2) != 0 || far == [] ==> FarBeyond(far, curBlock + 1, B)
  {
    BoundaryStays(curBlock, B);
    var next := curBlock + 1;
    if next % (B / 2) != 0 {
      forall i | 0 <= i < |far| ensures IsFar(far, i, next, B) {
        assert IsFar(far, i, curBlock, B);
      }
    }
  }

  class PrioQueue<T(!new)> {
    const B: int
    const blocks: array<PQBlock<T>>
    /** The multimap for far elements, in key order. */
    var feMap: seq<(int, T)>
    var curBlock: int
    var elems: int
    /** What the queue holds. */
    ghost var content: multiset<(int, T)>

    ghost predicate Valid()
      reads this, blocks
    {
      && B >= 2 && blocks.Length == B && curBlock >= 0
      && AllOk(blocks[..])
      && Represents(content, blocks[..], curBlock, feMap)
      && Sorted(feMap) && FarBeyond(feMap, curBlock, B)
      && elems == |content|
    }

    constructor (numBlocks: int)
      requires numBlocks >= 2
      ensures Valid() && fresh(blocks) && content == multiset{} && curBlock == 0
    {
      B := numBlocks;
      blocks := new PQBlock<T>[numBlocks](_ => Empty());
      feMap, curBlock, elems := [], 0, 0;
      content := multiset{};
    }

    method Enqueue(obj: T, cycle: int)
      requires Valid() && cycle / 64 >= curBlock
      modifies this`feMap, this`elems, this`content, blocks
      ensures Valid() && content == old(content) + multiset{(cycle, obj)}
    {
      var absBlock := cycle / 64;
      if absBlock < curBlock + B {
        PutRepresents(content, blocks[..], curBlock, feMap, obj, cycle);
        PutAt(obj, cycle);
      } else {
        var at := UpperBound(cycle);
        BoundaryNear(curBlock, B);
        FarRepresents(content, blocks[..], curBlock, feMap, at, obj, cycle);
        FarStaysFar(feMap, at, obj, cycle, curBlock, B);
        feMap := feMap[..at] + [(cycle, obj)] + feMap[at..];
      }
      elems := elems + 1;
      content := content + multiset{(cycle, obj)};
    }

    /** Puts an element into the slot of its cycle. */
    method PutAt(obj: T, cycle: int)
      requires B >= 1 && blocks.Length == B && AllOk(blocks[..])
      modifies blocks
      ensures blocks[..] == PutNear(old(blocks[..]), obj, cycle)
    {
      ModBounds(cycle / 64, B);
      var i := (cycle / 64) % B;
      assert blocks[i] == blocks[..][i];
      blocks[i] := blocks[i].Enqueue(obj, cycle % 64);
    }

    /** Where the multimap puts a new element: after those of the same or an earlier cycle. */
    method UpperBound(cycle: int) returns (at: int)
      requires Sorted(feMap)
      ensures 0 <= at <= |feMap|
      ensures forall i | 0 <= i < at :: feMap[i].0 <= cycle
      ensures forall i | at <= i < |feMap| :: feMap[i].0 > cycle
    {
      at := 0;
      while at < |feMap| && feMap[at].0 <= cycle
        invariant 0 <= at <= |feMap|
        invariant forall i | 0 <= i < at :: feMap[i].0 <= cycle
      {
        at := at + 1;
      }
    }

    /** Moves every far element with a cycle below topCycle into the window. */
    method Migrate(topCycle: int)
      requires B >= 2 && blocks.Length == B && curBlock >= 0 && curBlock % (B / 2) == 0
      requires topCycle == (curBlock + B) * 64
      requires AllOk(blocks[..]) && Represents(content, blocks[..], curBlock, feMap)
      requires Sorted(feMap) && forall i | 0 <= i < |feMap| :: feMap[i].0 / 64 >= curBlock
      modifies this`feMap, blocks
      ensures AllOk(blocks[..]) && Represents(content, blocks[..], curBlock, feMap)
      ensures Sorted(feMap) && FarBeyond(feMap, curBlock, B)
    {
      var it := 0;
      assert feMap[0..] == feMap;
      while it < |feMap| && feMap[it].0 < topCycle
        invariant 0 <= it <= |feMap| && feMap == old(feMap) && AllOk(blocks[..])
        invariant Represents(content, blocks[..], curBlock, feMap[it..])
      {
        var (cycle, obj) := feMap[it];
        assert curBlock <= cycle / 64 < curBlock + B;
        MigrateRepresents(content, blocks[..], curBlock, feMap[it..]);
        assert feMap[it..][1..] == feMap[it + 1..];
        PutAt(obj, cycle);
        it := it + 1;
      }
      feMap := feMap[it..];
    }

    /** Takes a pair of least cycle. */
    method Dequeue() returns (obj: T, deqCycle: int)
      requires Valid() && elems != 0
      modifies this`feMap, this`curBlock, this`elems, this`content, blocks
      ensures Valid()
      ensures (deqCycle, obj) in old(content) && content == old(content) - multiset{(deqCycle, obj)}
      ensures forall c: int, x: T | (c, x) in old(content) :: deqCycle <= c
      ensures curBlock == deqCycle / 64
    {
      SkipEmpty();
      TakeRepresents(content, blocks[..], curBlock, feMap);
      ghost var before := blocks[..];
      obj, deqCycle := TakeFirst();
      FirstIsLeast(content, before, curBlock, feMap, B, deqCycle);
      elems := elems - 1;
      content := content - multiset{(deqCycle, obj)};
    }

    /** Leaves the empty blocks behind; at every half window, far elements that are near by now move in. */
    method SkipEmpty()
      requires Valid() && elems != 0
      modifies this`feMap, this`curBlock, blocks
      ensures Valid()
      ensures blocks[..][curBlock % B].Any()
    {
      ghost var some: (int, T) :| some in content;
      InWindow(content, blocks[..], curBlock, feMap, B, some);
      ModBounds(curBlock, B);
      while !blocks[curBlock % B].Any()
        invariant Valid()
        invariant some.0 / 64 >= curBlock && 0 <= curBlock % B < B
        decreases some.0 / 64 - curBlock
      {
        FirstBlockEmpty(content, blocks[..], curBlock, feMap, B, some);
        NextBlock();
        ModBounds(curBlock, B);
      }
    }

    /** One empty block is left behind. */
    method NextBlock()
      requires Valid() && !blocks[..][curBlock % B].Any()
      modifies this`feMap, this`curBlock, blocks
      ensures Valid() && curBlock == old(curBlock) + 1
    {
      AdvanceRepresents(content, blocks[..], curBlock, feMap);
      FarAhead(feMap, curBlock, B);
      FarStays(feMap, curBlock, B);
      curBlock := curBlock + 1;
      if curBlock % (B / 2) == 0 && feMap != [] {
        Migrate((curBlock + B) * 64);
      }
    }

    method TakeFirst() returns (obj: T, deqCycle: int)
      requires blocks.Length == B >= 1 && curBlock >= 0 && AllOk(blocks[..]) && blocks[..][curBlock % B].Any()
      modifies blocks
      ensures blocks[..] == TakeNear(old(blocks[..]), curBlock)
      ensures obj == FirstObj(old(blocks[..]), curBlock) && deqCycle == FirstNear(old(blocks[..]), curBlock)
    {
      ModBounds(curBlock, B);
      var i := curBlock % B;
      assert blocks[i] == blocks[..][i];
      var pos := blocks[i].Ctz();
      obj, deqCycle := blocks[i].slots[pos][0], curBlock * 64 + pos;
      blocks[i] := blocks[i].Dequeue();
    }

    method Size() returns (n: int)
      requires Valid()
      ensures n == |content|
    {
      n := elems;
    }

    /** The cycle that the next Dequeue reports: the least one in the queue. */
    method FirstCycle() returns (first: int, ghost who: T)
      requires Valid() && elems != 0
      ensures (first, who) in content
      ensures forall c: int, x: T | (c, x) in content :: first <= c
    {
      for i := 0 to B / 2
        invariant forall d: int | d / 64 < curBlock + i :: NearAt(blocks[..], curBlock, d) == []
      {
        var any, cycle := FirstOfBlock(i);
        if any {
          FarAhead(feMap, curBlock, B);
          who := NearestIsFirst(cycle);
          return cycle, who;
        }
      }
      for i := B / 2 to B
        invariant forall d: int | d / 64 < curBlock + i :: NearAt(blocks[..], curBlock, d) == []
      {
        var any, cycle := FirstOfBlock(i);
        if any {
          // This far ahead, the far map may hold an earlier cycle.
          if feMap != [] && feMap[0].0 < cycle {
            FarIsFirst();
            return feMap[0].0, feMap[0].1;
          }
          who := NearestIsFirst(cycle);
          return cycle, who;
        }
      }
      FarIsFirst();
      return feMap[0].0, feMap[0].1;
    }

    /** The first populated cycle of the window's block i. */
    method FirstOfBlock(i: int) returns (any: bool, cycle: int)
      requires Valid() && 0 <= i < B
      requires forall d: int | d / 64 < curBlock + i :: NearAt(blocks[..], curBlock, d) == []
      ensures any ==> NearAt(blocks[..], curBlock, cycle) != [] && cycle / 64 == curBlock + i
      ensures any ==> forall d: int | d < cycle :: NearAt(blocks[..], curBlock, d) == []
      ensures !any ==> forall d: int | d / 64 < curBlock + i + 1 :: NearAt(blocks[..], curBlock, d) == []
    {
      ModBounds(curBlock + i, B);
      var b := blocks[(curBlock + i) % B];
      assert b == blocks[..][(curBlock + i) % B];
      any := b.Any();
      cycle := if any then (curBlock + i) * 64 + b.Ctz() else 0;
      forall d: int | d / 64 == curBlock + i && (any ==> d < cycle) ensures NearAt(blocks[..], curBlock, d) == [] {
        assert !b.occ[d % 64];
      }
      if any {
        assert cycle / 64 == curBlock + i && cycle % 64 == b.Ctz();
      }
    }

    lemma NearestIsFirst(cycle: int) returns (who: T)
      requires Valid() && NearAt(blocks[..], curBlock, cycle) != []
      requires forall d: int | d < cycle :: NearAt(blocks[..], curBlock, d) == []
      requires forall j | 0 <= j < |feMap| :: cycle <= feMap[j].0
      ensures (cycle, who) in content
      ensures forall c: int, x: T | (c, x) in content :: cycle <= c
    {
      who := NearAt(blocks[..], curBlock, cycle)[0];
      assert CountsAt(content, blocks[..], curBlock, feMap, cycle, who);
      forall c: int, x: T | (c, x) in content ensures cycle <= c {
        InWindow(content, blocks[..], curBlock, feMap, B, (c, x));
      }
    }

    lemma FarIsFirst()
      requires Valid() && elems != 0
      requires forall d: int | NearAt(blocks[..], curBlock, d) != [] :: feMap != [] && feMap[0].0 <= d
      ensures feMap != []
      ensures (feMap[0].0, feMap[0].1) in content
      ensures forall c: int, x: T | (c, x) in content :: feMap[0].0 <= c
    {
      var some: (int, T) :| some in content;
      InWindow(content, blocks[..], curBlock, feMap, B, some);
      assert CountsAt(content, blocks[..], curBlock, feMap, feMap[0].0, feMap[0].1);
      assert feMap[0] in multiset(feMap);
      assert (feMap[0].0, feMap[0].1) in content;
      forall c: int, x: T | (c, x) in content ensures feMap[0].0 <= c {
        InWindow(content, blocks[..], curBlock, feMap, B, (c, x));
      }
    }
  }
}
