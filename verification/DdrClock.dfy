/** The two clock domains of the DRAM controller. Events run on system cycles; the controller counts memory
    cycles. The memory clock must be at most half as fast, which the constructor insists on.
 */
module DdrClock {
  import opened Arith

  /** Frequencies of the system and of the memory. */
  datatype Clocks = Clocks(sys: nat, mem: nat) {
    /** The constructor panics unless mem < sys / 2, which implies this. */
    predicate Ok() {
      mem >= 1 && 2 * mem <= sys
    }

    function SysToMem(sysCycle: int): int
      requires Ok()
    {
      sysCycle * mem / sys + 1
    }

    function MemToSys(memCycle: int): int
      requires Ok()
    {
      (memCycle + 1) * sys / mem
    }

    function MatchingMemToSys(memCycle: int): int
      requires Ok()
    {
      (2 * memCycle - 1) * sys / mem / 2
    }
  }

  /** Translating to the matching system cycle and back gives the same memory cycle. */
  lemma RoundTrip(c: Clocks, m: int)
    requires c.Ok() && m >= 1
    ensures c.SysToMem(c.MatchingMemToSys(m)) == m
    ensures c.MatchingMemToSys(m) >= 1
  {
    var a := (2 * m - 1) * c.sys;
    var q := a / c.mem;
    var h := q / 2;
    DivMod(a, c.mem);
    assert 2 * h <= q <= 2 * h + 1;
    Halves(q, h, c.mem);
    assert a == 2 * (m * c.sys) - c.sys;
    assert c.mem * (q + 1) == c.mem * q + c.mem;
    assert (m - 1) * c.sys == m * c.sys - c.sys;
    DivIs(h * c.mem, c.sys, m - 1);
    MulMono(c.sys, 1, 2 * m - 1);
    assert a >= c.sys >= 2 * c.mem;
    DivMono(2 * c.mem, a, c.mem);
    DivIs(2 * c.mem, c.mem, 2);
  }

  lemma Halves(q: int, h: int, n: int)
    requires 2 * h <= q <= 2 * h + 1 && n >= 0
    ensures 2 * (h * n) <= n * q && n * (q + 1) <= 2 * (h * n) + 2 * n
  {
    MulMono(n, 2 * h, q);
    MulMono(n, q + 1, 2 * h + 2);
    assert n * (2 * h) == 2 * (h * n);
    assert n * (2 * h + 2) == n * (2 * h) + 2 * n;
  }

  /** In real time: memory cycle m spans from (m - 1) / mem to m / mem, and system cycle s starts at s / sys. */
  lemma SysToMemIs(c: Clocks, s: int, m: int)
    requires c.Ok()
    ensures c.SysToMem(s) == m <==> (m - 1) * c.sys <= s * c.mem < m * c.sys
  {
    Quotient(s * c.mem, c.sys, m - 1);
  }

  /** The last system cycle that starts by the end of memory cycle m + 1. */
  lemma MemToSysIs(c: Clocks, m: int, s: int)
    requires c.Ok()
    ensures c.MemToSys(m) == s <==> s * c.mem <= (m + 1) * c.sys < (s + 1) * c.mem
  {
    Quotient((m + 1) * c.sys, c.mem, s);
  }

  lemma Quotient(a: int, b: int, q: int)
    requires b > 0
    ensures a / b == q <==> q * b <= a < (q + 1) * b
  {
    DivMod(a, b);
    assert (a / b) * b == b * (a / b) && (a / b + 1) * b == b * (a / b) + b;
    if q * b <= a < (q + 1) * b {
      DivIs(a, b, q);
    }
  }

  lemma SysToMemMonotone(c: Clocks, s: int, s': int)
    requires c.Ok() && s <= s'
    ensures c.SysToMem(s) <= c.SysToMem(s')
  {
    MulMono(c.mem, s, s');
    assert s * c.mem == c.mem * s && s' * c.mem == c.mem * s';
    DivMono(s * c.mem, s' * c.mem, c.sys);
  }

  /** An event for memory cycle m, queued no earlier than now, arrives at exactly that memory cycle. */
  lemma ExactWakeUp(c: Clocks, m: int, now: int)
    requires c.Ok() && now >= 0 && m >= c.SysToMem(now)
    ensures var at := if c.MatchingMemToSys(m) >= now then c.MatchingMemToSys(m) else now;
            at >= 1 && at >= now && c.SysToMem(at) == m
  {
    SysToMemPositive(c, now);
    RoundTrip(c, m);
    if c.MatchingMemToSys(m) < now {
      SysToMemMonotone(c, c.MatchingMemToSys(m), now);
    }
  }

  lemma SysToMemPositive(c: Clocks, s: int)
    requires c.Ok() && s >= 0
    ensures c.SysToMem(s) >= 1
  {
    SysToMemMonotone(c, 0, s);
    DivIs(0 * c.mem, c.sys, 0);
  }

  /** A response at memory cycle m is not before the system cycle of a command issued by then. */
  lemma RespondsLater(c: Clocks, m: int, now: int)
    requires c.Ok() && now >= 0 && m >= c.SysToMem(now)
    ensures c.MemToSys(m) >= now
  {
    var k := now * c.mem / c.sys;
    DivMod(now * c.mem, c.sys);
    MulMono(c.sys, k + 2, m + 1);
    assert c.sys * (k + 2) == c.sys * k + 2 * c.sys && c.sys * (m + 1) == (m + 1) * c.sys;
    DivMono(now * c.mem, (m + 1) * c.sys, c.mem);
    DivIs(now * c.mem, c.mem, now);
  }
}
