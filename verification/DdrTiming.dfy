/** Command timing of the DRAM controller. The controller records no commands: for each request it computes
    the cycles of the ACT, if one is needed, and of the RD or WR, and keeps a few bounds per bank. Here those
    cycles form a trace of commands, and every trace respects the timing rules of the device.
 */
module DdrTiming {
  import ActWindow
  import opened Arith
  import opened DdrQueue

  /** Timing parameters, in memory cycles, and the rank of each bank. */
  datatype Tech = Tech(
    tBL: nat, tCL: nat, tRCD: nat, tRTP: nat, tRP: nat, tRRD: nat, tRAS: nat, tFAW: nat, tWTR: nat, tWR: nat, tRFC: nat,
    ranks: nat, rankOf: seq<int>)
  {
    predicate Ok() {
      tRFC >= tRP && |rankOf| > 0 && forall b | 0 <= b < |rankOf| :: 0 <= rankOf[b] < ranks
    }
  }

  /** minPre: the last PRE if the row is closed, else the first cycle at which one may come. */
  datatype Bank = Bank(open: bool, openRow: int, minPre: int, lastAct: int, lastCmd: int, curRowHits: int)

  datatype Timing = Timing(banks: seq<Bank>, minResp: int, lastWrite: bool, win: seq<seq<int>>) {
    predicate Shaped(g: Tech) {
      |banks| == |g.rankOf| && |win| == g.ranks && forall k | 0 <= k < |win| :: |win[k]| == 4
    }
  }

  // ---------------------------------------------------------------- issuing a request

  predicate Hit(b: Bank, r: Request) {
    b.open && r.row == b.openRow
  }

  /** When the row's PRE and ACT can come. */
  function PreCycle(b: Bank, r: Request): int {
    if b.open then Max(r.arrival, b.minPre) else b.minPre
  }

  function ActCycle(g: Tech, t: Timing, r: Request): int
    requires g.Ok() && t.Shaped(g) && 0 <= r.bank < |t.banks|
  {
    var b := t.banks[r.bank];
    var act := Max(r.arrival, Max(PreCycle(b, r) + g.tRP, b.lastAct + g.tRRD));
    Max(act, t.win[g.rankOf[r.bank]][0] + g.tFAW)
  }

  /** The first cycle at which the bank could take the RD or WR. */
  function FindMinCmdCycle(g: Tech, t: Timing, r: Request): int
    requires g.Ok() && t.Shaped(g) && 0 <= r.bank < |t.banks|
  {
    var b := t.banks[r.bank];
    var c := Max(r.arrival, b.lastCmd + 1);
    if Hit(b, r) then c else Max(c, ActCycle(g, t, r) + g.tRCD)
  }

  /** When the RD or WR is issued, the data bus and the turnaround from writes to reads included. */
  function CmdCycle(g: Tech, t: Timing, r: Request, cur: int): int
    requires g.Ok() && t.Shaped(g) && 0 <= r.bank < |t.banks|
  {
    var c := Max(cur, t.minResp - g.tCL);
    var c := if t.lastWrite && !r.write then Max(c, t.minResp + g.tWTR) else c;
    if Hit(t.banks[r.bank], r) then c else Max(c, ActCycle(g, t, r) + g.tRCD)
  }

  /** The controller's bounds after the request; autoClose closes the row at once. */
  function Issue(g: Tech, t: Timing, r: Request, cur: int, autoClose: bool): (t': Timing)
    requires g.Ok() && t.Shaped(g) && 0 <= r.bank < |t.banks|
    ensures t'.Shaped(g)
  {
    var b := t.banks[r.bank];
    var act := if Hit(b, r) then b.lastAct else ActCycle(g, t, r);
    var cmd := CmdCycle(g, t, r, cur);
    var resp := cmd + g.tCL + g.tBL;
    var pre := if !Hit(b, r) && b.open then PreCycle(b, r) + g.tRAS else b.minPre;
    var pre' := Max(pre, Max(act + g.tRAS, if r.write then resp + g.tWR else cmd + g.tRTP));
    var k := g.rankOf[r.bank];
    Timing(t.banks[r.bank := Bank(!autoClose, r.row, pre', act, cmd, r.hitSeq)], resp, r.write,
           if Hit(b, r) then t.win else t.win[k := ActWindow.Added(t.win[k], act)])
  }

  // ---------------------------------------------------------------- refresh

  function Busy(banks: seq<Bank>, cur: int): int {
    if banks == [] then cur
    else
      var b := banks[|banks| - 1];
      Max(Busy(banks[..|banks| - 1], cur), Max(b.minPre, b.lastCmd))
  }

  /** The refresh starts when every bank is done, and leaves every row closed. */
  function Refresh(g: Tech, t: Timing, cur: int): (t': Timing)
    requires g.Ok() && t.Shaped(g)
    ensures t'.Shaped(g)
  {
    var done := Busy(t.banks, cur) + g.tRFC;
    t.(banks := seq(|t.banks|, i requires 0 <= i < |t.banks| => t.banks[i].(minPre := done - g.tRP, open := false)))
  }

  lemma {:induction false} BusyBounds(banks: seq<Bank>, cur: int, b: int)
    requires 0 <= b < |banks|
    ensures Busy(banks, cur) >= banks[b].minPre && Busy(banks, cur) >= banks[b].lastCmd && Busy(banks, cur) >= cur
  {
    if b < |banks| - 1 {
      BusyBounds(banks[..|banks| - 1], cur, b);
    } else {
      BusyFrom(banks[..|banks| - 1], cur);
    }
  }

  lemma {:induction false} BusyFrom(banks: seq<Bank>, cur: int)
    ensures Busy(banks, cur) >= cur
  {
    if banks != [] {
      BusyFrom(banks[..|banks| - 1], cur);
    }
  }

  // ---------------------------------------------------------------- the trace and its rules

  datatype Cmd =
    | Act(bank: int, row: int, at: int)
    | Col(bank: int, row: int, write: bool, at: int)
    | Ref(start: int, done: int)

  /** The end of the data burst. */
  function BurstEnd(g: Tech, c: Cmd): int
    requires c.Col?
  {
    c.at + g.tCL + g.tBL
  }

  /** The first cycle at which the row may be closed after a RD or WR. */
  function Recovered(g: Tech, c: Cmd): int
    requires c.Col?
  {
    if c.write then BurstEnd(g, c) + g.tWR else c.at + g.tRTP
  }

  /** What the device asks of a command and an earlier one. */
  predicate Spaced(g: Tech, x: Cmd, y: Cmd) {
    match (x, y)
    case (Col(_, _, _, _), Col(_, _, _, _)) =>
      && y.at + g.tCL >= BurstEnd(g, x)
      && (x.write && !y.write ==> y.at >= BurstEnd(g, x) + g.tWTR)
    case (Act(_, _, _), Act(_, _, _)) => x.bank == y.bank ==> y.at >= x.at + g.tRAS + g.tRP && y.at >= x.at + g.tRRD
    case (Col(_, _, _, _), Act(_, _, _)) => x.bank == y.bank ==> y.at >= Recovered(g, x) + g.tRP
    case (Ref(_, _), Act(_, _, _)) => y.at >= x.done
    case (Ref(_, _), Col(_, _, _, _)) => y.at >= x.done + g.tRCD
    case (Act(_, _, _), Ref(_, _)) => y.start >= x.at + g.tRAS
    case (Col(_, _, _, _), Ref(_, _)) => y.start >= x.at && y.start >= Recovered(g, x)
    case (Ref(_, _), Ref(_, _)) => true // DdrLimits tells when it has to wait
    case (Act(_, _, _), Col(_, _, _, _)) => true
  }

  /** The row in a bank's buffer, and since when. */
  datatype Row = Closed | Open(row: int, since: int)

  function Device(trace: seq<Cmd>, bank: int): Row {
    if trace == [] then Closed
    else
      match trace[|trace| - 1]
      case Act(b, row, at) => if b == bank then Open(row, at) else Device(trace[..|trace| - 1], bank)
      case Col(_, _, _, _) => Device(trace[..|trace| - 1], bank)
      case Ref(_, _) => Closed
  }

  /** A RD or WR finds its own row in the buffer, activated at least tRCD before. */
  predicate RowReady(g: Tech, trace: seq<Cmd>, y: Cmd) {
    y.Col? ==> var d := Device(trace, y.bank); d.Open? && d.row == y.row && y.at >= d.since + g.tRCD
  }

  ghost predicate Follows(g: Tech, trace: seq<Cmd>, y: Cmd) {
    RowReady(g, trace, y) && forall i | 0 <= i < |trace| :: Spaced(g, trace[i], y)
  }

  ghost predicate Safe(g: Tech, trace: seq<Cmd>) {
    trace != [] ==> Safe(g, trace[..|trace| - 1]) && Follows(g, trace[..|trace| - 1], trace[|trace| - 1])
  }

  /** The cycles of a rank's ACTs, in the order of the trace. */
  function RankActs(g: Tech, trace: seq<Cmd>, rank: int): seq<int> {
    if trace == [] then []
    else
      var c := trace[|trace| - 1];
      if c.Act? && 0 <= c.bank < |g.rankOf| && g.rankOf[c.bank] == rank then
        RankActs(g, trace[..|trace| - 1], rank) + [c.at]
      else RankActs(g, trace[..|trace| - 1], rank)
  }

  // ---------------------------------------------------------------- what the controller's bounds say

  /** The bounds cover a command of the trace. */
  ghost predicate Covers(g: Tech, t: Timing, c: Cmd) {
    match c
    case Act(b, _, at) => 0 <= b < |t.banks| && t.banks[b].minPre >= at + g.tRAS && t.banks[b].lastAct >= at
    case Col(b, _, write, at) =>
      && 0 <= b < |t.banks| && t.banks[b].minPre >= Recovered(g, c) && t.banks[b].lastCmd >= at
      && t.minResp >= BurstEnd(g, c)
      && (write && !t.lastWrite ==> t.minResp - g.tCL >= BurstEnd(g, c) + g.tWTR)
    case Ref(_, done) =>
      forall b | 0 <= b < |t.banks| ::
        t.banks[b].minPre >= done - g.tRP && (t.banks[b].open ==> t.banks[b].lastAct >= done)
  }

  ghost predicate BankOk(g: Tech, t: Timing, trace: seq<Cmd>, b: int)
    requires 0 <= b < |t.banks|
  {
    var k := t.banks[b];
    k.open ==> Device(trace, b) == Open(k.openRow, k.lastAct) && k.lastCmd >= k.lastAct + g.tRCD
  }

  ghost predicate RankOk(g: Tech, t: Timing, trace: seq<Cmd>, k: int)
    requires 0 <= k < |t.win|
  {
    t.win[k] == ActWindow.Run(RankActs(g, trace, k), 4) && ActWindow.Legal(RankActs(g, trace, k), 4, g.tFAW)
  }

  ghost predicate Keeps(g: Tech, t: Timing, trace: seq<Cmd>) {
    && g.Ok() && t.Shaped(g)
    && (forall i | 0 <= i < |trace| :: Covers(g, t, trace[i]))
    && (forall b {:trigger BankOk(g, t, trace, b)} | 0 <= b < |t.banks| :: BankOk(g, t, trace, b))
    && (forall k {:trigger RankOk(g, t, trace, k)} | 0 <= k < |t.win| :: RankOk(g, t, trace, k))
    && Safe(g, trace)
  }

  lemma SafeAppend(g: Tech, trace: seq<Cmd>, y: Cmd)
    requires Safe(g, trace) && Follows(g, trace, y)
    ensures Safe(g, trace + [y])
  {
    assert (trace + [y])[..|trace|] == trace;
  }

  lemma Appended(g: Tech, trace: seq<Cmd>, y: Cmd, b: int, k: int)
    ensures Device(trace + [y], b)
         == if y.Ref? then Closed else if y.Act? && y.bank == b then Open(y.row, y.at) else Device(trace, b)
    ensures RankActs(g, trace + [y], k)
         == if y.Act? && 0 <= y.bank < |g.rankOf| && g.rankOf[y.bank] == k then RankActs(g, trace, k) + [y.at]
            else RankActs(g, trace, k)
  {
    assert (trace + [y])[..|trace|] == trace;
  }

  // ---------------------------------------------------------------- a request keeps the rules

  function ActOf(g: Tech, t: Timing, r: Request): Cmd
    requires g.Ok() && t.Shaped(g) && 0 <= r.bank < |t.banks|
  {
    Act(r.bank, r.row, ActCycle(g, t, r))
  }

  function ColOf(g: Tech, t: Timing, r: Request, cur: int): Cmd
    requires g.Ok() && t.Shaped(g) && 0 <= r.bank < |t.banks|
  {
    Col(r.bank, r.row, r.write, CmdCycle(g, t, r, cur))
  }

  /** The commands that serve a request. */
  function Issued(g: Tech, t: Timing, r: Request, cur: int): seq<Cmd>
    requires g.Ok() && t.Shaped(g) && 0 <= r.bank < |t.banks|
  {
    if Hit(t.banks[r.bank], r) then [ColOf(g, t, r, cur)] else [ActOf(g, t, r), ColOf(g, t, r, cur)]
  }

  predicate CanIssue(g: Tech, t: Timing, r: Request, cur: int) {
    g.Ok() && t.Shaped(g) && 0 <= r.bank < |t.banks| && FindMinCmdCycle(g, t, r) <= cur
  }

  /** The command is later than the last one of the bank. */
  lemma LaterThanLast(g: Tech, t: Timing, r: Request, cur: int)
    requires CanIssue(g, t, r, cur)
    ensures t.banks[r.bank].lastCmd < CmdCycle(g, t, r, cur) && CmdCycle(g, t, r, cur) >= cur
  {
  }

  lemma IssueCovers(g: Tech, t: Timing, r: Request, cur: int, autoClose: bool, c: Cmd)
    requires CanIssue(g, t, r, cur) && Covers(g, t, c)
    ensures Covers(g, Issue(g, t, r, cur, autoClose), c)
  {
    LaterThanLast(g, t, r, cur);
  }

  lemma IssueCoversNew(g: Tech, t: Timing, r: Request, cur: int, autoClose: bool)
    requires CanIssue(g, t, r, cur)
    ensures Covers(g, Issue(g, t, r, cur, autoClose), ColOf(g, t, r, cur))
    ensures !Hit(t.banks[r.bank], r) ==> Covers(g, Issue(g, t, r, cur, autoClose), ActOf(g, t, r))
  {
  }

  lemma ActSpaced(g: Tech, t: Timing, r: Request, c: Cmd)
    requires g.Ok() && t.Shaped(g) && 0 <= r.bank < |t.banks| && Covers(g, t, c)
    ensures Spaced(g, c, ActOf(g, t, r))
  {
  }

  lemma ColSpaced(g: Tech, t: Timing, r: Request, cur: int, c: Cmd)
    requires CanIssue(g, t, r, cur) && Covers(g, t, c)
    requires Hit(t.banks[r.bank], r) ==> t.banks[r.bank].lastCmd >= t.banks[r.bank].lastAct + g.tRCD
    ensures Spaced(g, c, ColOf(g, t, r, cur))
  {
    LaterThanLast(g, t, r, cur);
    if c.Ref? && !Hit(t.banks[r.bank], r) {
      ActSpaced(g, t, r, c);
    }
  }

  lemma ActKeepsSafe(g: Tech, t: Timing, trace: seq<Cmd>, r: Request)
    requires Keeps(g, t, trace) && 0 <= r.bank < |t.banks|
    ensures Safe(g, trace + [ActOf(g, t, r)])
  {
    forall i | 0 <= i < |trace| ensures Spaced(g, trace[i], ActOf(g, t, r)) {
      ActSpaced(g, t, r, trace[i]);
    }
    SafeAppend(g, trace, ActOf(g, t, r));
  }

  /** Serving a request after its row is ready gives a safe trace. */
  lemma IssueSafe(g: Tech, t: Timing, trace: seq<Cmd>, r: Request, cur: int)
    requires Keeps(g, t, trace) && CanIssue(g, t, r, cur)
    ensures Safe(g, trace + Issued(g, t, r, cur))
  {
    var y := ColOf(g, t, r, cur);
    assert BankOk(g, t, trace, r.bank);
    LaterThanLast(g, t, r, cur);
    forall i | 0 <= i < |trace| ensures Spaced(g, trace[i], y) {
      ColSpaced(g, t, r, cur, trace[i]);
    }
    if Hit(t.banks[r.bank], r) {
      SafeAppend(g, trace, y);
    } else {
      var x := ActOf(g, t, r);
      ActKeepsSafe(g, t, trace, r);
      Appended(g, trace, x, r.bank, 0);
      SafeAppend(g, trace + [x], y);
      assert trace + [x] + [y] == trace + Issued(g, t, r, cur);
    }
  }

  /** What the new commands do to the replayed device and to the ranks' activations. */
  lemma IssueReplay(g: Tech, t: Timing, trace: seq<Cmd>, r: Request, cur: int, b: int, k: int)
    requires CanIssue(g, t, r, cur)
    ensures var hit, trace' := Hit(t.banks[r.bank], r), trace + Issued(g, t, r, cur);
            && Device(trace', b) == (if b == r.bank && !hit then Open(r.row, ActCycle(g, t, r)) else Device(trace, b))
            && RankActs(g, trace', k)
               == if g.rankOf[r.bank] == k && !hit then RankActs(g, trace, k) + [ActCycle(g, t, r)]
                  else RankActs(g, trace, k)
  {
    var y := ColOf(g, t, r, cur);
    if Hit(t.banks[r.bank], r) {
      Appended(g, trace, y, b, k);
    } else {
      var x := ActOf(g, t, r);
      Appended(g, trace, x, b, k);
      Appended(g, trace + [x], y, b, k);
      assert trace + [x] + [y] == trace + Issued(g, t, r, cur);
    }
  }

  lemma RunAppend(acts: seq<int>, a: int, faw: nat)
    requires ActWindow.Legal(acts, 4, faw) && a >= ActWindow.Run(acts, 4)[0] + faw
    ensures ActWindow.Legal(acts + [a], 4, faw)
    ensures ActWindow.Run(acts + [a], 4) == ActWindow.Added(ActWindow.Run(acts, 4), a)
  {
    assert (acts + [a])[..|acts|] == acts;
  }

  lemma IssueKeeps(g: Tech, t: Timing, trace: seq<Cmd>, r: Request, cur: int, autoClose: bool)
    requires Keeps(g, t, trace) && CanIssue(g, t, r, cur)
    ensures Keeps(g, Issue(g, t, r, cur, autoClose), trace + Issued(g, t, r, cur))
  {
    var t', trace' := Issue(g, t, r, cur, autoClose), trace + Issued(g, t, r, cur);
    IssueSafe(g, t, trace, r, cur);
    IssueCoversNew(g, t, r, cur, autoClose);
    forall i | 0 <= i < |trace'| ensures Covers(g, t', trace'[i]) {
      if i < |trace| {
        IssueCovers(g, t, r, cur, autoClose, trace[i]);
      }
    }
    LaterThanLast(g, t, r, cur);
    forall b | 0 <= b < |t.banks| ensures BankOk(g, t', trace', b) {
      IssueReplay(g, t, trace, r, cur, b, 0);
      assert BankOk(g, t, trace, b);
    }
    forall k | 0 <= k < |t.win| ensures RankOk(g, t', trace', k) {
      IssueReplay(g, t, trace, r, cur, 0, k);
      assert RankOk(g, t, trace, k);
      if g.rankOf[r.bank] == k && !Hit(t.banks[r.bank], r) {
        RunAppend(RankActs(g, trace, k), ActCycle(g, t, r), g.tFAW);
      }
    }
  }

  // ---------------------------------------------------------------- a refresh keeps the rules

  function RefOf(g: Tech, t: Timing, cur: int): Cmd {
    Ref(Busy(t.banks, cur), Busy(t.banks, cur) + g.tRFC)
  }

  lemma RefreshKeeps(g: Tech, t: Timing, trace: seq<Cmd>, cur: int)
    requires Keeps(g, t, trace)
    ensures Keeps(g, Refresh(g, t, cur), trace + [RefOf(g, t, cur)])
  {
    var y, t' := RefOf(g, t, cur), Refresh(g, t, cur);
    forall b | 0 <= b < |t.banks|
      ensures Busy(t.banks, cur) >= t.banks[b].minPre && Busy(t.banks, cur) >= t.banks[b].lastCmd
    {
      BusyBounds(t.banks, cur, b);
    }
    forall i | 0 <= i < |trace| ensures Spaced(g, trace[i], y) && Covers(g, t', trace[i]) {
      RefreshCovers(g, t, cur, trace[i]);
    }
    SafeAppend(g, trace, y);
    forall b | 0 <= b < |t.banks| ensures BankOk(g, t', trace + [y], b) {
    }
    forall k | 0 <= k < |t.win| ensures RankOk(g, t', trace + [y], k) {
      Appended(g, trace, y, 0, k);
      assert RankOk(g, t, trace, k);
    }
  }

  lemma RefreshCovers(g: Tech, t: Timing, cur: int, c: Cmd)
    requires g.Ok() && t.Shaped(g) && Covers(g, t, c) && |t.banks| > 0
    requires forall b | 0 <= b < |t.banks| ::
      Busy(t.banks, cur) >= t.banks[b].minPre && Busy(t.banks, cur) >= t.banks[b].lastCmd
    ensures Spaced(g, c, RefOf(g, t, cur)) && Covers(g, Refresh(g, t, cur), c)
  {
    if c.Ref? {
      assert t.banks[0].minPre >= c.done - g.tRP;
    }
  }

  // ---------------------------------------------------------------- every run

  datatype Demand = Serve(r: Request, cur: int, autoClose: bool) | DoRefresh(cur: int)

  /** Power-on: nothing has been issued. */
  function Start(g: Tech): Timing {
    Timing(seq(|g.rankOf|, _ => Bank(false, 0, 0, 0, 0, 0)), g.tCL + g.tBL + 1, false,
           seq(g.ranks, _ => ActWindow.Zeros(4)))
  }

  /** The controller's bounds and the commands so far. A request is served only when its bank can take it. */
  ghost function Run(g: Tech, events: seq<Demand>): (s: (Timing, seq<Cmd>))
    requires g.Ok()
    ensures s.0.Shaped(g)
  {
    if events == [] then (Start(g), [])
    else
      var (t, trace) := Run(g, events[..|events| - 1]);
      match events[|events| - 1]
      case Serve(r, cur, ac) =>
        if CanIssue(g, t, r, cur) then (Issue(g, t, r, cur, ac), trace + Issued(g, t, r, cur)) else (t, trace)
      case DoRefresh(cur) => (Refresh(g, t, cur), trace + [RefOf(g, t, cur)])
  }

  lemma StartKeeps(g: Tech)
    requires g.Ok()
    ensures Keeps(g, Start(g), [])
  {
  }

  /** Every run of requests and refreshes gives a trace that respects the device's rules. */
  lemma {:induction false} EveryTraceIsSafe(g: Tech, events: seq<Demand>)
    requires g.Ok()
    ensures Keeps(g, Run(g, events).0, Run(g, events).1) && Safe(g, Run(g, events).1)
  {
    if events == [] {
      StartKeeps(g);
    } else {
      var before := events[..|events| - 1];
      EveryTraceIsSafe(g, before);
      var (t, trace) := Run(g, before);
      match events[|events| - 1]
      case Serve(r, cur, ac) =>
        if CanIssue(g, t, r, cur) {
          IssueKeeps(g, t, trace, r, cur, ac);
        }
      case DoRefresh(cur) => RefreshKeeps(g, t, trace, cur);
    }
  }

  /** In a safe trace every pair of commands is spaced, and every RD or WR hits its open row. */
  lemma {:induction false} SafePairs(g: Tech, trace: seq<Cmd>, i: int, j: int)
    requires Safe(g, trace) && 0 <= i < j < |trace|
    ensures Spaced(g, trace[i], trace[j])
  {
    if j < |trace| - 1 {
      SafePairs(g, trace[..|trace| - 1], i, j);
    }
  }

  lemma {:induction false} SafeRows(g: Tech, trace: seq<Cmd>, j: int)
    requires Safe(g, trace) && 0 <= j < |trace|
    ensures RowReady(g, trace[..j], trace[j])
  {
    if j < |trace| - 1 {
      SafeRows(g, trace[..|trace| - 1], j);
      assert trace[..|trace| - 1][..j] == trace[..j];
    }
  }

  /** No rank has five ACTs within less than tFAW, in whatever order they were recorded. */
  lemma FiveActsSpan(g: Tech, events: seq<Demand>, k: int, J: set<int>)
    requires g.Ok() && 0 <= k < g.ranks
    requires var acts := RankActs(g, Run(g, events).1, k); |J| == 5 && forall x | x in J :: 0 <= x < |acts|
    ensures var acts := RankActs(g, Run(g, events).1, k); exists i, j :: i in J && j in J && acts[j] >= acts[i] + g.tFAW
  {
    EveryTraceIsSafe(g, events);
    var (t, trace) := Run(g, events);
    assert RankOk(g, t, trace, k);
    ActWindow.NeverTooMany(RankActs(g, trace, k), 4, g.tFAW, J);
  }
}
