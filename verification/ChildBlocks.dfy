/** How a timing event keeps its children: none, one, or a chain of blocks of three, newest block first. */
module ChildBlocks {

  const BLOCK_EVENTS := 3

  /** A block: its children, up to the first null pointer of its array, and the block before it. */
  datatype Chain = End | Block(events: seq<int>, next: Chain)

  /** The children in the order in which they are visited. */
  function Visited(c: Chain): seq<int> {
    match c
    case End => []
    case Block(events, next) => events + Visited(next)
  }

  /** The chain holds n children in full blocks. */
  ghost predicate AllFull(c: Chain, n: int) {
    match c
    case End => n == 0
    case Block(events, next) => |events| == BLOCK_EVENTS && AllFull(next, n - BLOCK_EVENTS)
  }

  /** Every block but the first is full; the first holds what is left of n, or three. */
  ghost predicate ChainOk(c: Chain, n: int) {
    c.Block? && 1 <= |c.events| <= BLOCK_EVENTS && AllFull(c.next, n - |c.events|)
  }

  lemma {:induction false} FullIsMultiple(c: Chain, n: int)
    requires AllFull(c, n)
    ensures n >= 0 && n % BLOCK_EVENTS == 0 && |Visited(c)| == n
  {
    if c.Block? {
      FullIsMultiple(c.next, n - BLOCK_EVENTS);
    }
  }

  /** The array index for the next child: past the children of the first block, or 0 if that is full. */
  lemma NextIndex(c: Chain, n: int)
    requires ChainOk(c, n)
    ensures n % BLOCK_EVENTS == |c.events| % BLOCK_EVENTS && |Visited(c)| == n
  {
    FullIsMultiple(c.next, n - |c.events|);
  }

  /** Where the visit meets a child added to n others: after those of the first block, or first of all if that
      is full. */
  function After(s: seq<int>, ev: int): (r: seq<int>)
    ensures |r| == |s| + 1 && exists k | 0 <= k <= |s| :: r == s[..k] + [ev] + s[k..]
  {
    var k := if |s| == 0 || (|s| >= 2 && |s| % BLOCK_EVENTS == 0) then 0 else (|s| - 1) % BLOCK_EVENTS + 1;
    s[..k] + [ev] + s[k..]
  }

  /** No child is lost or met twice. */
  lemma AfterHasAll(s: seq<int>, ev: int)
    ensures multiset(After(s, ev)) == multiset(s) + multiset{ev}
  {
    var k := if |s| == 0 || (|s| >= 2 && |s| % BLOCK_EVENTS == 0) then 0 else (|s| - 1) % BLOCK_EVENTS + 1;
    assert s == s[..k] + s[k..];
  }

  /** The chain after one more child: in the first block, or in a new one if that is full. */
  function Extended(c: Chain, ev: int): Chain
    requires c.Block?
  {
    if |c.events| == BLOCK_EVENTS then Block([ev], c) else Block(c.events + [ev], c.next)
  }

  lemma ExtendedOk(c: Chain, n: int, ev: int)
    requires ChainOk(c, n) && n >= 2
    ensures ChainOk(Extended(c, ev), n + 1)
    ensures Visited(Extended(c, ev)) == After(Visited(c), ev)
  {
    NextIndex(c, n);
    var s := Visited(c);
    if |c.events| == BLOCK_EVENTS {
      assert After(s, ev) == [ev] + s;
    } else {
      var k := |c.events|;
      assert s[..k] == c.events && s[k..] == Visited(c.next);
      assert c.events + [ev] + Visited(c.next) == After(s, ev);
    }
  }

  class TimingEvent {
    var numChildren: int
    /** The only child, when there is one; the blocks, when there are more. */
    var child: int
    var children: Chain

    ghost predicate Valid()
      reads this
    {
      numChildren >= 0 && (numChildren >= 2 ==> ChainOk(children, numChildren))
    }

    /** The children, as they are visited. */
    ghost function Kids(): seq<int>
      reads this
    {
      if numChildren <= 0 then [] else if numChildren == 1 then [child] else Visited(children)
    }

    constructor ()
      ensures Valid() && Kids() == []
    {
      numChildren, child, children := 0, 0, End;
    }

    method AddChild(childEv: int)
      requires Valid()
      modifies this
      ensures Valid() && Kids() == After(old(Kids()), childEv) && numChildren == old(numChildren) + 1
    {
      if numChildren == 0 {
        numChildren := 1;
        child := childEv;
      } else if numChildren == 1 {
        children := Block([child, childEv], End);
        assert Visited(children) == [child, childEv];
        numChildren := 2;
      } else {
        AddToBlocks(childEv);
      }
    }

    method AddToBlocks(childEv: int)
      requires Valid() && numChildren >= 2
      modifies this`children, this`numChildren
      ensures Valid() && Kids() == After(old(Kids()), childEv) && numChildren == old(numChildren) + 1
    {
      ExtendedOk(children, numChildren, childEv);
      NextIndex(children, numChildren);
      var idx := numChildren % BLOCK_EVENTS;
      ghost var c := children;
      if idx == 0 {
        children := Block([], children);
      }
      assert idx == |children.events|;
      children := children.(events := children.events + [childEv]);
      assert children == Extended(c, childEv);
      numChildren := numChildren + 1;
    }

    /** Visits the children; the result lists the calls made. */
    method VisitChildren() returns (calls: seq<int>)
      requires Valid()
      ensures calls == Kids() && |calls| == numChildren
    {
      if numChildren == 0 {
        return [];
      }
      if numChildren == 1 {
        return [child];
      }
      calls := VisitBlocks(children);
      NextIndex(children, numChildren);
      assert |calls| == numChildren;
    }
  }

  method VisitBlocks(c: Chain) returns (calls: seq<int>)
    ensures calls == Visited(c)
  {
    calls := [];
    var curBlock := c;
    while curBlock.Block?
      invariant calls + Visited(curBlock) == Visited(c)
      decreases curBlock
    {
      var events := curBlock.events;
      ghost var before, rest := calls, Visited(curBlock.next);
      assert Visited(c) == before + (events + rest) == before + events + rest;
      for i := 0 to |events|
        invariant calls == before + events[..i]
      {
        assert events[..i + 1] == events[..i] + [events[i]];
        calls := calls + [events[i]];
      }
      assert events[..|events|] == events;
      curBlock := curBlock.next;
    }
    assert calls + [] == calls;
  }
}
