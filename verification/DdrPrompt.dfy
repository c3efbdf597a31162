/** The partner of the timing rules: the DRAM controller waits for nothing else. Every ACT, RD, WR and refresh is
    issued at the cycle at which it is asked for, or one cycle earlier it would break a rule against some command
    that has been issued before.
 */
module DdrPrompt {
  import opened Arith
  import opened DdrQueue
  import opened DdrTiming
  import ActWindow

  /** One cycle earlier, the two commands would be too close. */
  ghost predicate Binds(g: Tech, x: Cmd, y: Cmd) {
    match y
    case Act(b, row, at) => !Spaced(g, x, Act(b, row, at - 1)) || (SameRank(g, x, b) && at == x.at + g.tFAW)
    case Col(b, row, write, at) => !Spaced(g, x, Col(b, row, write, at - 1))
    case Ref(start, done) => !Spaced(g, x, Ref(start - 1, done - 1)) || (x.Ref? && start == x.done - g.tRP)
  }

  ghost predicate SameRank(g: Tech, x: Cmd, b: int) {
    x.Act? && 0 <= x.bank < |g.rankOf| && 0 <= b < |g.rankOf| && g.rankOf[x.bank] == g.rankOf[b]
  }

  ghost predicate Bound(g: Tech, trace: seq<Cmd>, y: Cmd) {
    exists x :: x in trace && Binds(g, x, y)
  }

  // ---------------------------------------------------------------- the bounds are those of commands

  ghost predicate ActAt(trace: seq<Cmd>, b: int, at: int) {
    exists row :: Act(b, row, at) in trace
  }

  ghost predicate ColAt(trace: seq<Cmd>, b: int, at: int) {
    exists row, write :: Col(b, row, write, at) in trace
  }

  /** A command of bank b, or a refresh, asks for the row's PRE to be no earlier than at. */
  ghost predicate PreDue(g: Tech, trace: seq<Cmd>, b: int, at: int) {
    exists x :: x in trace && PreAfter(g, x, b) == From(at)
  }

  datatype PreTime = Any | From(c: int)

  ghost function PreAfter(g: Tech, x: Cmd, b: int): PreTime {
    match x
    case Act(c, _, at) => if b == c then From(at + g.tRAS) else Any
    case Col(c, _, _, _) => if b == c then From(Recovered(g, x)) else Any
    case Ref(_, done) => From(done - g.tRP)
  }

  ghost predicate BankTight(g: Tech, trace: seq<Cmd>, k: Bank, b: int) {
    && (ActAt(trace, b, k.lastAct) || (k.lastAct == 0 && !k.open))
    && (ColAt(trace, b, k.lastCmd) || k.lastCmd == 0)
    && (PreDue(g, trace, b, k.minPre) || k.minPre == 0)
  }

  ghost predicate BurstOf(g: Tech, trace: seq<Cmd>, resp: int, write: bool) {
    exists x :: x in trace && x.Col? && BurstEnd(g, x) == resp && x.write == write
  }

  ghost predicate NoBurst(trace: seq<Cmd>) {
    forall x | x in trace :: !x.Col?
  }

  ghost predicate RankTight(g: Tech, trace: seq<Cmd>, w: seq<int>, k: int) {
    forall i | 0 <= i < |w| :: w[i] == 0 || InRank(g, trace, k, w[i])
  }

  ghost predicate InRank(g: Tech, trace: seq<Cmd>, k: int, at: int) {
    exists b, row :: Act(b, row, at) in trace && 0 <= b < |g.rankOf| && g.rankOf[b] == k
  }

  /** Each of the controller's bounds is that of a command issued before, or the one from power-on. */
  ghost predicate Tight(g: Tech, t: Timing, trace: seq<Cmd>) {
    && g.Ok() && t.Shaped(g)
    && (forall b | 0 <= b < |t.banks| :: BankTight(g, trace, t.banks[b], b))
    && (forall k | 0 <= k < |t.win| :: RankTight(g, trace, t.win[k], k))
    && (BurstOf(g, trace, t.minResp, t.lastWrite)
        || (t.minResp == g.tCL + g.tBL + 1 && !t.lastWrite && NoBurst(trace)))
  }

  // ---------------------------------------------------------------- every step keeps this

  lemma BankStays(g: Tech, trace: seq<Cmd>, more: seq<Cmd>, k: Bank, b: int)
    requires BankTight(g, trace, k, b)
    ensures BankTight(g, trace + more, k, b)
  {
    if ActAt(trace, b, k.lastAct) {
      var row :| Act(b, row, k.lastAct) in trace;
      assert Act(b, row, k.lastAct) in trace + more;
    }
    if ColAt(trace, b, k.lastCmd) {
      var row, write :| Col(b, row, write, k.lastCmd) in trace;
      assert Col(b, row, write, k.lastCmd) in trace + more;
    }
    if PreDue(g, trace, b, k.minPre) {
      var x :| x in trace && PreAfter(g, x, b) == From(k.minPre);
      assert x in trace + more;
    }
  }

  lemma RankStays(g: Tech, trace: seq<Cmd>, more: seq<Cmd>, w: seq<int>, k: int)
    requires RankTight(g, trace, w, k)
    ensures RankTight(g, trace + more, w, k)
  {
    forall i | 0 <= i < |w| && w[i] != 0 ensures InRank(g, trace + more, k, w[i]) {
      var b, row :| Act(b, row, w[i]) in trace && 0 <= b < |g.rankOf| && g.rankOf[b] == k;
      assert Act(b, row, w[i]) in trace + more;
    }
  }

  /** The bank of the request, when its row is open already and when it is not. */
  lemma BankServed(g: Tech, t: Timing, trace: seq<Cmd>, r: Request, cur: int, autoClose: bool)
    requires Tight(g, t, trace) && CanIssue(g, t, r, cur)
    ensures BankTight(g, trace + Issued(g, t, r, cur), Issue(g, t, r, cur, autoClose).banks[r.bank], r.bank)
  {
    var k, k' := t.banks[r.bank], Issue(g, t, r, cur, autoClose).banks[r.bank];
    var y, issued := ColOf(g, t, r, cur), Issued(g, t, r, cur);
    var trace' := trace + issued;
    assert y in issued && y in trace';
    assert PreAfter(g, y, r.bank) == From(Recovered(g, y));
    BankStays(g, trace, issued, k, r.bank);
    if Hit(k, r) {
      var row :| Act(r.bank, row, k.lastAct) in trace';
      assert PreAfter(g, Act(r.bank, row, k.lastAct), r.bank) == From(k.lastAct + g.tRAS);
    } else {
      var x := ActOf(g, t, r);
      assert x in issued && x in trace';
      assert PreAfter(g, x, r.bank) == From(x.at + g.tRAS);
    }
  }

  lemma RankServed(g: Tech, t: Timing, trace: seq<Cmd>, r: Request, cur: int, autoClose: bool, k: int)
    requires Tight(g, t, trace) && CanIssue(g, t, r, cur) && 0 <= k < |t.win|
    ensures RankTight(g, trace + Issued(g, t, r, cur), Issue(g, t, r, cur, autoClose).win[k], k)
  {
    var issued, w' := Issued(g, t, r, cur), Issue(g, t, r, cur, autoClose).win[k];
    var trace' := trace + issued;
    RankStays(g, trace, issued, t.win[k], k);
    if k == g.rankOf[r.bank] && !Hit(t.banks[r.bank], r) {
      var x := ActOf(g, t, r);
      assert x in issued && Act(r.bank, r.row, x.at) in trace';
      AddedFrom(t.win[k], x.at);
      assert InRank(g, trace', k, x.at);
    }
  }

  lemma AddedFrom(w: seq<int>, a: int)
    requires |w| > 0
    ensures forall x | x in ActWindow.Added(w, a) :: x == a || x in w
  {
  }

  lemma ServeTight(g: Tech, t: Timing, trace: seq<Cmd>, r: Request, cur: int, autoClose: bool)
    requires Tight(g, t, trace) && CanIssue(g, t, r, cur)
    ensures Tight(g, Issue(g, t, r, cur, autoClose), trace + Issued(g, t, r, cur))
  {
    var t', issued := Issue(g, t, r, cur, autoClose), Issued(g, t, r, cur);
    forall b | 0 <= b < |t'.banks| ensures BankTight(g, trace + issued, t'.banks[b], b) {
      if b == r.bank {
        BankServed(g, t, trace, r, cur, autoClose);
      } else {
        BankStays(g, trace, issued, t.banks[b], b);
      }
    }
    forall k | 0 <= k < |t'.win| ensures RankTight(g, trace + issued, t'.win[k], k) {
      RankServed(g, t, trace, r, cur, autoClose, k);
    }
    assert ColOf(g, t, r, cur) in issued && ColOf(g, t, r, cur) in trace + issued;
  }

  lemma RefreshTight(g: Tech, t: Timing, trace: seq<Cmd>, cur: int)
    requires Tight(g, t, trace)
    ensures Tight(g, Refresh(g, t, cur), trace + [RefOf(g, t, cur)])
  {
    var y, t' := RefOf(g, t, cur), Refresh(g, t, cur);
    assert y in trace + [y];
    forall b | 0 <= b < |t'.banks| ensures BankTight(g, trace + [y], t'.banks[b], b) {
      BankStays(g, trace, [y], t.banks[b], b);
      assert PreAfter(g, y, b) == From(t'.banks[b].minPre);
    }
    forall k | 0 <= k < |t'.win| ensures RankTight(g, trace + [y], t'.win[k], k) {
      RankStays(g, trace, [y], t.win[k], k);
    }
    if BurstOf(g, trace, t.minResp, t.lastWrite) {
      var x :| x in trace && x.Col? && BurstEnd(g, x) == t.minResp && x.write == t.lastWrite;
      assert x in trace + [y];
    }
  }

  lemma {:induction false} RunTight(g: Tech, events: seq<Demand>)
    requires g.Ok()
    ensures Tight(g, Run(g, events).0, Run(g, events).1)
  {
    if events != [] {
      var before := events[..|events| - 1];
      RunTight(g, before);
      var (t, trace) := Run(g, before);
      match events[|events| - 1]
      case Serve(r, cur, ac) =>
        if CanIssue(g, t, r, cur) {
          ServeTight(g, t, trace, r, cur, ac);
        }
      case DoRefresh(cur) => RefreshTight(g, t, trace, cur);
    }
  }

  // ---------------------------------------------------------------- no needless wait

  /** An ACT comes when its request arrives, or tRP later if a row has to be closed first, or as soon as the commands
      before it allow, or power-on. */
  ghost predicate PromptAct(g: Tech, t: Timing, trace: seq<Cmd>, r: Request, y: Cmd)
    requires y.Act? && 0 <= r.bank < |t.banks|
  {
    || y.at == r.arrival || (t.banks[r.bank].open && y.at == r.arrival + g.tRP)
    || Bound(g, trace, y) || y.at in {g.tRP, g.tRRD, g.tFAW}
  }

  /** A RD or WR comes when its ready request is tried, or as soon as the data bus allows. */
  ghost predicate PromptCol(g: Tech, trace: seq<Cmd>, cur: int, y: Cmd)
    requires y.Col?
  {
    y.at == cur || Bound(g, trace, y) || (NoBurst(trace) && y.at == g.tBL + 1)
  }

  /** A refresh starts when it is asked for, or as soon as the commands before it allow. */
  ghost predicate PromptRef(g: Tech, trace: seq<Cmd>, cur: int, y: Cmd)
    requires y.Ref?
  {
    (y.start == cur || y.start == 0 || Bound(g, trace, y)) && y.done == y.start + g.tRFC
  }

  lemma ActIsPrompt(g: Tech, t: Timing, trace: seq<Cmd>, r: Request)
    requires Tight(g, t, trace) && 0 <= r.bank < |t.banks|
    ensures PromptAct(g, t, trace, r, ActOf(g, t, r))
  {
    var y, k, w := ActOf(g, t, r), t.banks[r.bank], t.win[g.rankOf[r.bank]];
    assert BankTight(g, trace, k, r.bank) && RankTight(g, trace, w, g.rankOf[r.bank]);
    if y.at == w[0] + g.tFAW && w[0] != 0 {
      var b, row :| Act(b, row, w[0]) in trace && 0 <= b < |g.rankOf| && g.rankOf[b] == g.rankOf[r.bank];
      assert Binds(g, Act(b, row, w[0]), y);
    } else if y.at == k.lastAct + g.tRRD && ActAt(trace, r.bank, k.lastAct) {
      var row :| Act(r.bank, row, k.lastAct) in trace;
      assert Binds(g, Act(r.bank, row, k.lastAct), y);
    } else if y.at == k.minPre + g.tRP && PreDue(g, trace, r.bank, k.minPre) {
      var x :| x in trace && PreAfter(g, x, r.bank) == From(k.minPre);
      assert Binds(g, x, y);
    }
  }

  /** A request is ready when it arrives, or right after its bank's last RD or WR, or tRCD after its ACT. */
  lemma ReadyIsPrompt(g: Tech, t: Timing, trace: seq<Cmd>, r: Request)
    requires Tight(g, t, trace) && 0 <= r.bank < |t.banks|
    ensures var c := FindMinCmdCycle(g, t, r);
      || c == r.arrival || ColAt(trace, r.bank, c - 1) || c == 1
      || (!Hit(t.banks[r.bank], r) && c == ActOf(g, t, r).at + g.tRCD)
  {
    assert BankTight(g, trace, t.banks[r.bank], r.bank);
  }

  lemma ColIsPrompt(g: Tech, t: Timing, trace: seq<Cmd>, r: Request, cur: int)
    requires Tight(g, t, trace) && CanIssue(g, t, r, cur)
    ensures PromptCol(g, trace, cur, ColOf(g, t, r, cur))
  {
    var y := ColOf(g, t, r, cur);
    if BurstOf(g, trace, t.minResp, t.lastWrite) {
      var x :| x in trace && x.Col? && BurstEnd(g, x) == t.minResp && x.write == t.lastWrite;
      assert y.at != cur ==> Binds(g, x, y);
    }
  }

  lemma {:induction false} BusyIs(banks: seq<Bank>, cur: int)
    ensures var m := Busy(banks, cur);
      m == cur || exists b | 0 <= b < |banks| :: m == banks[b].minPre || m == banks[b].lastCmd
  {
    if banks != [] {
      var n := |banks| - 1;
      BusyIs(banks[..n], cur);
      var m := Busy(banks[..n], cur);
      if m != cur {
        var b :| 0 <= b < n && (m == banks[..n][b].minPre || m == banks[..n][b].lastCmd);
        assert banks[b] == banks[..n][b];
      }
    }
  }

  lemma RefreshIsPrompt(g: Tech, t: Timing, trace: seq<Cmd>, cur: int)
    requires Tight(g, t, trace)
    ensures PromptRef(g, trace, cur, RefOf(g, t, cur))
  {
    var y := RefOf(g, t, cur);
    BusyIs(t.banks, cur);
    if y.start != cur && y.start != 0 {
      var b :| 0 <= b < |t.banks| && (y.start == t.banks[b].minPre || y.start == t.banks[b].lastCmd);
      assert BankTight(g, trace, t.banks[b], b);
      if y.start == t.banks[b].minPre {
        var x :| x in trace && PreAfter(g, x, b) == From(y.start);
        assert Binds(g, x, y);
      } else {
        var row, write :| Col(b, row, write, y.start) in trace;
        assert Binds(g, Col(b, row, write, y.start), y);
      }
    }
  }

  /** In every run, whatever request comes next or refresh is asked for, nothing waits without a rule that makes it. */
  lemma NoNeedlessWait(g: Tech, events: seq<Demand>, r: Request, cur: int)
    requires g.Ok() && 0 <= r.bank < |g.rankOf|
    ensures var (t, trace) := Run(g, events);
      && PromptAct(g, t, trace, r, ActOf(g, t, r)) && PromptRef(g, trace, cur, RefOf(g, t, cur))
      && (CanIssue(g, t, r, cur) ==> PromptCol(g, trace, cur, ColOf(g, t, r, cur)))
  {
    RunTight(g, events);
    var (t, trace) := Run(g, events);
    ActIsPrompt(g, t, trace, r);
    RefreshIsPrompt(g, t, trace, cur);
    if CanIssue(g, t, r, cur) {
      ColIsPrompt(g, t, trace, r, cur);
    }
  }
}
