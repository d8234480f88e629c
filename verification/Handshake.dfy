/** The interrupt handshake between device, top half, bottom half and clients of the queues
    (virtio/virtqueue.c, QInterest, QDisarm and QNotified; virtio/transport-classic.c,
    interruptTopHalf and VRearm), as a state machine whose steps interleave freely. */
module Handshake {
  import opened Virtqueue

  /** One queue. `used` counts completions and `seen` how far QPoll has claimed; both are unwrapped.
      `armed` is `avail->flags == 0`. `check`: the device has moved the used index and has still to
      look at the flag. `owe`: a client has raised interest from 0 while completions were unclaimed, and
      has still to poll. */
  datatype Line = Line(used: nat, seen: nat, armed: bool, interest: nat, check: bool, owe: bool)

  /** Where the top half is: idle, about to acknowledge, disarming queue i, or (i == queues) done. */
  datatype Top = Idle | Ack | Disarm(i: nat)
  /** Where the bottom half, QNotified, is: the next queue of one of its loops, or VRearm. */
  datatype Bottom = Off | Poll1(i: nat) | Rearm | Flags(i: nat) | Poll2(i: nat)

  datatype State = State(lines: seq<Line>, irq: bool, qnotifying: bool, queued: bool, top: Top, bottom: Bottom)

  datatype Step =
    | Complete(q: nat)              // device: moves the used index
    | CheckFlag(q: nat)             // device: reads the flag, interrupts if armed
    | TopEnter | TopAck | TopDisarm | TopInstall
    | BottomStart | BottomStep      // one queue of a loop, or VRearm
    | Interest(q: nat, to: nat)     // a client, through QInterest
    | ClientPoll(q: nat)            // a client's QPoll reads the used index

  // -------------------------------------------------------------------- steps

  /** The top half runs at hardware interrupt level, so nothing else of the driver runs meanwhile. */
  predicate Enabled(s: State, a: Step) {
    match a
    case Complete(q) => q < |s.lines|
    case CheckFlag(q) => q < |s.lines| && s.lines[q].check
    case TopEnter => s.top == Idle && s.irq
    case TopAck => s.top == Ack
    case TopDisarm => s.top.Disarm? && s.top.i < |s.lines|
    case TopInstall => s.top.Disarm? && s.top.i >= |s.lines|
    case BottomStart => s.top == Idle && s.bottom == Off && s.queued
    case BottomStep => s.top == Idle && s.bottom != Off
    case Interest(q, _) => s.top == Idle && q < |s.lines|
    case ClientPoll(q) => s.top == Idle && q < |s.lines|
  }

  function Claimed(l: Line): Line {
    l.(seen := l.used, owe := false)
  }

  /** A client that raises interest from 0 owes a poll if completions are unclaimed at that moment. */
  predicate MustPoll(l: Line, to: nat) {
    l.interest == 0 && to > 0 && l.used != l.seen
  }

  function Apply(s: State, a: Step): State
    requires Enabled(s, a)
  {
    match a
    case Complete(q) => s.(lines := s.lines[q := s.lines[q].(used := s.lines[q].used + 1, check := true)])
    case CheckFlag(q) => s.(lines := s.lines[q := s.lines[q].(check := false)], irq := s.irq || s.lines[q].armed)
    case TopEnter => s.(top := Ack)
    case TopAck => s.(irq := false, top := if s.qnotifying then Idle else Disarm(0))
    case TopDisarm => s.(lines := s.lines[s.top.i := s.lines[s.top.i].(armed := false)], top := Disarm(s.top.i + 1))
    case TopInstall => s.(qnotifying := true, queued := true, top := Idle)
    case BottomStart => s.(queued := false, bottom := Poll1(0))
    case BottomStep => ApplyBottom(s)
    case Interest(q, to) =>
      var l := s.lines[q];
      s.(lines := s.lines[q := l.(interest := to, armed := to != 0, owe := l.owe || MustPoll(l, to))])
    case ClientPoll(q) => s.(lines := s.lines[q := Claimed(s.lines[q])])
  }

  function ApplyBottom(s: State): State
    requires s.bottom != Off
  {
    match s.bottom
    case Poll1(i) =>
      if i < |s.lines| then s.(lines := s.lines[i := Claimed(s.lines[i])], bottom := Poll1(i + 1))
      else s.(bottom := Rearm)
    case Rearm => s.(qnotifying := false, bottom := Flags(0))
    case Flags(i) =>
      if i < |s.lines| then s.(lines := s.lines[i := s.lines[i].(armed := s.lines[i].interest != 0)], bottom := Flags(i + 1))
      else s.(bottom := Poll2(0))
    case Poll2(i) =>
      if i < |s.lines| then s.(lines := s.lines[i := Claimed(s.lines[i])], bottom := Poll2(i + 1))
      else s.(bottom := Off)
  }

  // ---------------------------------------------------------------- invariant

  /** The bottom half has still to make its last read of queue q's used index. */
  predicate WillPoll(b: Bottom, q: nat) {
    b.Poll1? || b == Rearm || b.Flags? || (b.Poll2? && b.i <= q)
  }

  /** It has still to write queue q's flag. */
  predicate WillArm(b: Bottom, q: nat) {
    b.Poll1? || b == Rearm || (b.Flags? && b.i <= q)
  }

  /** Wanted completions are never stranded. */
  predicate NoneLost(s: State, q: nat)
    requires q < |s.lines|
  {
    var l := s.lines[q];
    l.interest > 0 && l.used != l.seen ==>
      s.irq || s.top != Idle || s.queued || WillPoll(s.bottom, q) || l.owe || (l.check && l.armed)
  }

  /** A wanted queue is disarmed only while a bottom half that will rearm it is on its way. */
  predicate Rearmed(s: State, q: nat)
    requires q < |s.lines|
  {
    s.lines[q].interest > 0 && !s.lines[q].armed ==> s.queued || WillArm(s.bottom, q) || (s.top.Disarm? && q < s.top.i)
  }

  predicate Gates(s: State) {
    && (s.qnotifying <==> s.queued || s.bottom.Poll1? || s.bottom == Rearm)
    && (s.queued ==> !s.bottom.Poll1? && s.bottom != Rearm)
    && (s.top.Disarm? ==> !s.qnotifying && s.top.i <= |s.lines|)
    && (s.top == Ack ==> s.irq)
  }

  predicate Inv(s: State) {
    && Gates(s)
    && (forall q :: 0 <= q < |s.lines| ==> NoneLost(s, q))
    && (forall q :: 0 <= q < |s.lines| ==> Rearmed(s, q))
    && (forall q :: 0 <= q < |s.lines| ==> s.lines[q].seen <= s.lines[q].used && (s.lines[q].armed ==> s.lines[q].interest > 0))
  }

  /** After QInit on every queue. */
  function Start(n: nat): (s: State)
    ensures Inv(s)
  {
    State(seq(n, i => Line(0, 0, false, 0, false, false)), false, false, false, Idle, Off)
  }

  // ----------------------------------------------------------- every step keeps it

  lemma StepInv(s: State, a: Step)
    requires Inv(s) && Enabled(s, a)
    ensures Inv(Apply(s, a))
  {
    var s' := Apply(s, a);
    forall q | 0 <= q < |s.lines|
      ensures NoneLost(s', q) && Rearmed(s', q) && s'.lines[q].seen <= s'.lines[q].used
      ensures s'.lines[q].armed ==> s'.lines[q].interest > 0
    {
      assert NoneLost(s, q) && Rearmed(s, q);
    }
  }

  ghost predicate Next(s: State, s': State) {
    exists a :: Enabled(s, a) && s' == Apply(s, a)
  }

  lemma NextInv(s: State, s': State)
    requires Inv(s) && Next(s, s')
    ensures Inv(s')
  {
    var a :| Enabled(s, a) && s' == Apply(s, a);
    StepInv(s, a);
  }

  ghost predicate Run(run: seq<State>) {
    && |run| > 0 && (exists n: nat :: run[0] == Start(n))
    && forall i :: 0 <= i < |run| - 1 ==> Next(run[i], run[i + 1])
  }

  /** No interleaving of device, top half, bottom half and clients loses a completion. */
  lemma {:induction false} RunInv(run: seq<State>)
    requires Run(run)
    ensures Inv(run[|run| - 1])
  {
    var n := |run| - 1;
    if n > 0 {
      RunInv(run[..n]);
      NextInv(run[n - 1], run[n]);
    }
  }

  // ------------------------------------------------------- the handshake settles

  /** Steps that device and driver take of their own accord once nothing new happens: the device
      finishes its checks, interrupts run, and clients make the polls they owe. */
  predicate Internal(s: State, a: Step) {
    Enabled(s, a) && !a.Complete? && !a.Interest? && (a.ClientPoll? ==> s.lines[a.q].owe)
  }

  /** Nothing is on its way. */
  predicate Quiet(s: State) {
    && !s.irq && s.top == Idle && s.bottom == Off && !s.queued
    && forall q :: 0 <= q < |s.lines| ==> !s.lines[q].check && !s.lines[q].owe
  }

  lemma QuietMeansCaughtUp(s: State)
    requires Inv(s) && Quiet(s)
    ensures forall q :: 0 <= q < |s.lines| && s.lines[q].interest > 0 ==> s.lines[q].used == s.lines[q].seen && s.lines[q].armed
    ensures forall q :: 0 <= q < |s.lines| && s.lines[q].interest == 0 ==> !s.lines[q].armed
  {
    forall q | 0 <= q < |s.lines| && s.lines[q].interest > 0 ensures s.lines[q].used == s.lines[q].seen && s.lines[q].armed {
      assert NoneLost(s, q) && Rearmed(s, q);
    }
  }

  /** Until all is quiet some internal step is possible. */
  lemma QuietOrEnabled(s: State)
    requires Gates(s)
    ensures Quiet(s) <==> !exists a :: Internal(s, a)
  {
    if !Quiet(s) {
      if q :| 0 <= q < |s.lines| && s.lines[q].check {
        assert Internal(s, CheckFlag(q));
      } else if s.top == Ack {
        assert Internal(s, TopAck);
      } else if s.top.Disarm? {
        assert Internal(s, TopDisarm) || Internal(s, TopInstall);
      } else if s.irq {
        assert Internal(s, TopEnter);
      } else if s.bottom != Off {
        assert Internal(s, BottomStep);
      } else if s.queued {
        assert Internal(s, BottomStart);
      } else {
        var q :| 0 <= q < |s.lines| && s.lines[q].owe;
        assert Internal(s, ClientPoll(q));
      }
    }
  }

  /** The cost of a whole bottom half over n queues, its start included. */
  function Bottoms(n: nat): nat { 3 * n + 5 }

  /** Never less than the number of internal steps still to come. */
  function Rank(s: State): nat {
    var n := |s.lines|;
    LinesRank(s.lines) + IrqRank(s) + TopRank(s.top, n) + BottomRank(s.bottom, n) + (if s.queued then Bottoms(n) else 0)
  }

  function IrqRank(s: State): nat {
    var n := |s.lines|;
    if !s.irq then 0 else Bottoms(n) + n + 3 + (if s.top == Ack then 0 else 1)
  }

  function TopRank(t: Top, n: nat): nat {
    if t.Disarm? then Bottoms(n) + 1 + (if t.i < n then n - t.i else 0) else 0
  }

  function BottomRank(b: Bottom, n: nat): nat {
    match b
    case Off => 0
    case Poll1(i) => (if i < n then n - i else 0) + 2 * n + 4
    case Rearm => 2 * n + 3
    case Flags(i) => (if i < n then n - i else 0) + n + 2
    case Poll2(i) => (if i < n then n - i else 0) + 1
  }

  function LineRank(l: Line, n: nat): nat {
    (if l.check then Bottoms(n) + n + 5 else 0) + (if l.owe then 1 else 0)
  }

  function Total(ls: seq<Line>, n: nat): nat {
    if ls == [] then 0 else LineRank(ls[0], n) + Total(ls[1..], n)
  }

  function LinesRank(ls: seq<Line>): nat { Total(ls, |ls|) }

  lemma {:induction false} TotalUpdate(ls: seq<Line>, q: nat, l: Line, n: nat)
    requires q < |ls|
    ensures Total(ls[q := l], n) == Total(ls, n) - LineRank(ls[q], n) + LineRank(l, n)
  {
    if q == 0 {
      assert ls[0 := l][1..] == ls[1..];
    } else {
      TotalUpdate(ls[1..], q - 1, l, n);
      assert ls[q := l][1..] == ls[1..][q - 1 := l];
    }
  }

  /** Every internal step uses up rank. */
  lemma InternalDecreases(s: State, a: Step)
    requires Gates(s) && Internal(s, a)
    ensures Rank(Apply(s, a)) < Rank(s)
  {
    var n := |s.lines|;
    if a.CheckFlag? || a.ClientPoll? {
      TotalUpdate(s.lines, a.q, Apply(s, a).lines[a.q], n);
    } else if a.TopDisarm? {
      TotalUpdate(s.lines, s.top.i, Apply(s, a).lines[s.top.i], n);
    } else if a.BottomStep? {
      BottomDecreases(s);
    }
  }

  lemma BottomDecreases(s: State)
    requires s.bottom != Off
    ensures Rank(ApplyBottom(s)) < Rank(s)
  {
    var s' := ApplyBottom(s);
    assert LinesRank(s'.lines) <= LinesRank(s.lines) && |s'.lines| == |s.lines| by { BottomLines(s); }
    assert BottomRank(s'.bottom, |s.lines|) < BottomRank(s.bottom, |s.lines|);
  }

  lemma BottomLines(s: State)
    requires s.bottom != Off
    ensures LinesRank(ApplyBottom(s).lines) <= LinesRank(s.lines)
  {
    if s.bottom != Rearm && s.bottom.i < |s.lines| {
      TotalUpdate(s.lines, s.bottom.i, ApplyBottom(s).lines[s.bottom.i], |s.lines|);
    }
  }

  ghost predicate Settles(s: State, s': State) {
    exists a :: Internal(s, a) && s' == Apply(s, a)
  }

  lemma SettlesInv(s: State, s': State)
    requires Inv(s) && Settles(s, s')
    ensures Inv(s') && Rank(s') < Rank(s)
  {
    var a :| Internal(s, a) && s' == Apply(s, a);
    StepInv(s, a);
    InternalDecreases(s, a);
  }

  ghost predicate SettlingRun(run: seq<State>) {
    |run| > 0 && forall i :: 0 <= i < |run| - 1 ==> Settles(run[i], run[i + 1])
  }

  lemma {:induction false} SettlingRunRanks(run: seq<State>)
    requires SettlingRun(run) && Inv(run[0])
    ensures Inv(run[|run| - 1]) && Rank(run[|run| - 1]) + |run| - 1 <= Rank(run[0])
  {
    var n := |run| - 1;
    if n > 0 {
      SettlingRunRanks(run[..n]);
      SettlesInv(run[n - 1], run[n]);
    }
  }

  /** Whatever order device, interrupts and clients take their outstanding steps in, after at most
      Rank(s) of them nothing is left to do, and then every wanted completion has been claimed. */
  lemma EveryRunCatchesUp(run: seq<State>)
    requires SettlingRun(run) && Inv(run[0])
    ensures |run| - 1 <= Rank(run[0])
    ensures var s := run[|run| - 1];
            (forall a :: !Internal(s, a)) ==>
              forall q :: 0 <= q < |s.lines| && s.lines[q].interest > 0 ==> s.lines[q].used == s.lines[q].seen
  {
    SettlingRunRanks(run);
    var s := run[|run| - 1];
    if forall a :: !Internal(s, a) {
      QuietOrEnabled(s);
      QuietMeansCaughtUp(s);
    }
  }

  // ------------------------------------------------- when a raise needs its poll

  /** Interest raised by a client that will not poll after it. */
  function RaisedOnly(s: State, q: nat, to: nat): State
    requires q < |s.lines|
  {
    s.(lines := s.lines[q := s.lines[q].(interest := to, armed := to != 0)])
  }

  /** Something under way will poll the queue anyway, the device's check of its new flag included. */
  predicate OnItsWay(s: State, q: nat)
    requires q < |s.lines|
  {
    || s.irq || s.queued || WillPoll(s.bottom, q) || s.lines[q].owe || s.lines[q].check
    || exists p :: 0 <= p < |s.lines| && s.lines[p].check && s.lines[p].armed
  }

  /** However the outstanding steps are taken, in the end everything on the queue has been claimed. */
  ghost predicate Recovers(s: State, q: nat) {
    forall run :: SettlingRun(run) && run[0] == s && Quiet(run[|run| - 1]) ==> ClaimedIn(run[|run| - 1], q)
  }

  predicate ClaimedIn(s: State, q: nat) {
    q < |s.lines| && s.lines[q].seen == s.lines[q].used
  }

  /** As `OnItsWay`, at any later moment. */
  predicate Coming(s: State, q: nat) {
    q < |s.lines| && (
      || s.lines[q].used == s.lines[q].seen || s.irq || s.top != Idle || s.queued || WillPoll(s.bottom, q) || s.lines[q].owe
      || exists p :: 0 <= p < |s.lines| && s.lines[p].check && s.lines[p].armed)
  }

  /** Nothing that is still to come will poll the queue, and it has completions unclaimed. */
  predicate Stuck(s: State, q: nat) {
    && q < |s.lines| && s.lines[q].used != s.lines[q].seen && !s.lines[q].owe
    && !s.irq && s.top == Idle && !s.queued && !WillPoll(s.bottom, q)
    && forall p :: 0 <= p < |s.lines| && s.lines[p].check ==> !s.lines[p].armed
  }

  lemma GatesStep(s: State, a: Step)
    requires Gates(s) && Enabled(s, a)
    ensures Gates(Apply(s, a))
  {}

  lemma ComingStep(s: State, a: Step, q: nat)
    requires Gates(s) && Internal(s, a) && Coming(s, q)
    ensures Coming(Apply(s, a), q)
  {
    var s' := Apply(s, a);
    if p :| 0 <= p < |s.lines| && s.lines[p].check && s.lines[p].armed {
      if a == CheckFlag(p) {
        assert s'.irq;
      } else if !a.TopDisarm? && !(a.BottomStep? && s.bottom.Flags?) {
        assert s'.lines[p].check && s'.lines[p].armed;
      }
    }
  }

  lemma StuckStep(s: State, a: Step, q: nat)
    requires Internal(s, a) && Stuck(s, q)
    ensures Stuck(Apply(s, a), q)
  {}

  lemma {:induction false} SettlingComing(run: seq<State>, q: nat)
    requires SettlingRun(run) && Gates(run[0]) && Coming(run[0], q)
    ensures Gates(run[|run| - 1]) && Coming(run[|run| - 1], q)
  {
    var n := |run| - 1;
    if n > 0 {
      SettlingComing(run[..n], q);
      assert Settles(run[n - 1], run[n]);
      var a :| Internal(run[n - 1], a) && run[n] == Apply(run[n - 1], a);
      GatesStep(run[n - 1], a);
      ComingStep(run[n - 1], a, q);
    }
  }

  lemma {:induction false} SettlingStuck(run: seq<State>, q: nat)
    requires SettlingRun(run) && Stuck(run[0], q)
    ensures Stuck(run[|run| - 1], q)
  {
    var n := |run| - 1;
    if n > 0 {
      SettlingStuck(run[..n], q);
      assert Settles(run[n - 1], run[n]);
      var a :| Internal(run[n - 1], a) && run[n] == Apply(run[n - 1], a);
      StuckStep(run[n - 1], a, q);
    }
  }

  /** From every state the outstanding steps can be taken to the end. */
  lemma {:induction false} CanSettle(s: State) returns (run: seq<State>)
    requires Gates(s)
    ensures SettlingRun(run) && run[0] == s && Quiet(run[|run| - 1])
    decreases Rank(s)
  {
    run := [s];
    QuietOrEnabled(s);
    if !Quiet(s) {
      var a :| Internal(s, a);
      InternalDecreases(s, a);
      GatesStep(s, a);
      var rest := CanSettle(Apply(s, a));
      run := [s] + rest;
      assert Settles(s, rest[0]);
      assert forall i :: 1 <= i < |run| - 1 ==> run[i] == rest[i - 1] && run[i + 1] == rest[i];
    }
  }

  /** A raise of interest from 0 may go without its poll if and only if, at that moment, nothing on the
      queue is unclaimed or something that will poll it is under way. */
  lemma RaiseExactly(s: State, q: nat, to: nat)
    requires Inv(s) && s.top == Idle && q < |s.lines| && s.lines[q].interest == 0 && to > 0
    ensures Recovers(RaisedOnly(s, q, to), q) <==> s.lines[q].used == s.lines[q].seen || OnItsWay(s, q)
  {
    var s0 := RaisedOnly(s, q, to);
    if s.lines[q].used == s.lines[q].seen || OnItsWay(s, q) {
      ComingAfterRaise(s, q, to);
      forall run | SettlingRun(run) && run[0] == s0 && Quiet(run[|run| - 1]) ensures ClaimedIn(run[|run| - 1], q) {
        SettlingComing(run, q);
      }
    } else {
      var run := CanSettle(s0);
      SettlingStuck(run, q);
      assert !ClaimedIn(run[|run| - 1], q);
    }
  }

  lemma ComingAfterRaise(s: State, q: nat, to: nat)
    requires q < |s.lines| && to > 0 && (s.lines[q].used == s.lines[q].seen || OnItsWay(s, q))
    ensures Coming(RaisedOnly(s, q, to), q)
  {
    var s0 := RaisedOnly(s, q, to);
    if s.lines[q].check {
      assert s0.lines[q].check && s0.lines[q].armed;
    } else if p :| 0 <= p < |s.lines| && s.lines[p].check && s.lines[p].armed {
      assert s0.lines[p].check && s0.lines[p].armed;
    }
  }

  /** An input: a completion was suppressed before anybody was interested, and without the poll it is
      never claimed. */
  lemma InterestNeedsPoll()
    ensures var s := Apply(Apply(Start(1), Complete(0)), CheckFlag(0));
            && Inv(s) && MustPoll(s.lines[0], 1) && !Recovers(RaisedOnly(s, 0, 1), 0)
            && forall a :: Internal(Apply(s, Interest(0, 1)), a) ==> a == ClientPoll(0)
  {
    var s0 := Start(1);
    var s1 := Apply(s0, Complete(0));
    assert s1.lines == [Line(1, 0, false, 0, true, false)];
    StepInv(s0, Complete(0));
    var s2 := Apply(s1, CheckFlag(0));
    assert s2.lines == [Line(1, 0, false, 0, false, false)];
    StepInv(s1, CheckFlag(0));
    var s3 := Apply(s2, Interest(0, 1));
    assert s3.lines == [Line(1, 0, true, 1, false, true)];
    RaiseExactly(s2, 0, 1);
  }

  /** The comparison the code makes on the wrapped 16-bit words sees exactly whether the used ring is
      ahead. */
  lemma AheadIsVisible(r: Ring, h: History)
    requires Virtqueue.Inv(r, h)
    ensures r.usedIdx == r.usedCtr <==> |h.done| == h.polled
  {
    UsedFits(r, h, h.polled, []);
  }
}
