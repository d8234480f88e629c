/** The routines of the interrupt handshake themselves (virtio/virtqueue.c, QInterest, QDisarm and
    QNotified; virtio/transport-classic.c, interruptTopHalf and VRearm). Each statement that touches
    shared words is one step of the state machine in Handshake.dfy: the ghost trace records them. */
module HandshakeDriver {
  import opened Handshake

  class Transport {
    var queues: seq<Line>
    var irq: bool         // the device's interrupt line
    var qnotifying: bool
    var queued: bool      // the deferred task is installed
    ghost var top: Top
    ghost var bottom: Bottom
    ghost var trace: seq<State>

    ghost function Now(): State
      reads this
    {
      State(queues, irq, qnotifying, queued, top, bottom)
    }

    ghost predicate Valid()
      reads this
    {
      Run(trace) && trace[|trace| - 1] == Now()
    }

    constructor (n: nat)
      ensures Valid() && Now() == Start(n)
    {
      queues := seq(n, i => Line(0, 0, false, 0, false, false));
      irq, qnotifying, queued, top, bottom := false, false, false, Idle, Off;
      trace := [Start(n)];
    }

    /** Records that what the program just did was step `a`. */
    ghost method Did(a: Step)
      requires Run(trace) && Enabled(trace[|trace| - 1], a) && Now() == Apply(trace[|trace| - 1], a)
      modifies `trace
      ensures Valid() && old(trace) <= trace
    {
      var was := trace[|trace| - 1];
      trace := trace + [Now()];
      assert Next(was, Now());
    }

    /** What others may have done meanwhile: completions only grow, and QPoll only catches up. */
    ghost predicate Later(before: seq<Line>)
      reads this
    {
      && |queues| == |before|
      && forall q :: 0 <= q < |before| ==> queues[q].used >= before[q].used && queues[q].seen >= before[q].seen
    }

    // ---------------------------------------------------------------- the device

    method DeviceSteps()
      requires Valid()
      modifies `queues, `irq, `trace
      ensures Valid() && Later(old(queues)) && (old(irq) ==> irq)
    {
      var n: nat := *;
      while n > 0
        invariant Valid() && Later(old(queues)) && (old(irq) ==> irq)
      {
        n := n - 1;
        var q: nat, completing: bool := *, *;
        if q < |queues| && completing {
          queues := queues[q := queues[q].(used := queues[q].used + 1, check := true)];
          Did(Complete(q));
        } else if q < |queues| && queues[q].check {
          irq := irq || queues[q].armed;
          queues := queues[q := queues[q].(check := false)];
          Did(CheckFlag(q));
        }
      }
    }

    // ---------------------------------------------------------------- top half

    method InterruptTopHalf()
      requires Valid() && top == Idle
      modifies `queues, `irq, `qnotifying, `queued, `top, `trace
      ensures Valid() && top == Idle && Later(old(queues))
      ensures old(irq) ==> qnotifying
      ensures !old(irq) ==> Now() == old(Now())
    {
      if !irq {
        return;
      }
      Acknowledge();
      DeviceSteps();
      if !qnotifying {
        QDisarm();
        qnotifying := true;
        queued := true;
        top := Idle;
        Did(TopInstall);
      }
    }

    method Acknowledge()
      requires Valid() && top == Idle && irq
      modifies `queues, `irq, `top, `trace
      ensures Valid() && top == (if qnotifying then Idle else Disarm(0)) && Later(old(queues))
    {
      top := Ack;
      Did(TopEnter);
      DeviceSteps();
      irq := false;
      top := if qnotifying then Idle else Disarm(0);
      Did(TopAck);
    }

    method QDisarm()
      requires Valid() && top == Disarm(0)
      modifies `queues, `irq, `top, `trace
      ensures Valid() && top == Disarm(|queues|) && Later(old(queues))
      ensures forall q :: 0 <= q < |queues| ==> !queues[q].armed
    {
      var q := 0;
      while q < |queues|
        invariant Valid() && top == Disarm(q) && q <= |queues| && Later(old(queues))
        invariant forall j :: 0 <= j < q ==> !queues[j].armed
        decreases |queues| - q
      {
        queues := queues[q := queues[q].(armed := false)];
        q := q + 1;
        top := Disarm(q);
        Did(TopDisarm);
      }
    }

    // ---------------------------------------------------------------- clients

    method QInterest(q: nat, delta: int)
      requires Valid() && top == Idle && q < |queues| && queues[q].interest + delta >= 0
      modifies `queues, `trace
      ensures Valid() && |queues| == |old(queues)|
      ensures queues == old(queues)[q := queues[q]]
      ensures queues[q].used == old(queues)[q].used && queues[q].seen == old(queues)[q].seen
      ensures queues[q].interest == old(queues)[q].interest + delta
      ensures queues[q].armed <==> queues[q].interest != 0
    {
      var l := queues[q];
      var to: nat := l.interest + delta;
      queues := queues[q := l.(interest := to, armed := to != 0, owe := l.owe || MustPoll(l, to))];
      Did(Interest(q, to));
    }

    /** The part of QPoll that matters here: claims everything completed so far. */
    method ClientClaims(q: nat)
      requires Valid() && top == Idle && q < |queues|
      modifies `queues, `trace
      ensures Valid() && Later(old(queues)) && queues[q].seen == old(queues)[q].used
    {
      ghost var _ := TraceInv();
      queues := queues[q := Claimed(queues[q])];
      Did(ClientPoll(q));
    }

    /** Anything else that may happen between two statements of the bottom half: the device and the
        top half, and clients called from the polls. */
    method Others()
      requires Valid() && top == Idle
      modifies `queues, `irq, `qnotifying, `queued, `top, `trace
      ensures Valid() && top == Idle && Later(old(queues))
    {
      var n: nat := *;
      while n > 0
        invariant Valid() && top == Idle && Later(old(queues))
      {
        n := n - 1;
        var q: nat, delta: int, which: nat := *, *, *;
        if which == 0 {
          DeviceSteps();
        } else if which == 1 {
          InterruptTopHalf();
        } else if q < |queues| && which == 2 {
          ClientClaims(q);
        } else if q < |queues| && queues[q].interest + delta >= 0 {
          QInterest(q, delta);
        }
      }
    }

    ghost method TraceInv() returns (s: State)
      requires Valid()
      ensures s == Now() && Inv(s)
    {
      RunInv(trace);
      s := Now();
    }

    // ---------------------------------------------------------------- bottom half

    /** Every completion made before the call has been claimed when it returns. */
    method QNotified()
      requires Valid() && top == Idle && bottom == Off && queued
      modifies this
      ensures Valid() && top == Idle && bottom == Off && Later(old(queues))
      ensures forall q :: 0 <= q < |queues| ==> queues[q].seen >= old(queues)[q].used
    {
      FirstPolls();
      VRearm();
      Others();
      RestoreFlags();
      LastPolls(old(queues));
    }

    method FirstPolls()
      requires Valid() && top == Idle && bottom == Off && queued
      modifies this
      ensures Valid() && top == Idle && bottom == Rearm && Later(old(queues))
    {
      Begin();
      var q := 0;
      while q < |queues|
        invariant Valid() && top == Idle && bottom == Poll1(q) && q <= |queues| == |old(queues)| && Later(old(queues))
        decreases |queues| - q
      {
        ghost var _ := TraceInv();
        queues := queues[q := Claimed(queues[q])];
        q := q + 1;
        bottom := Poll1(q);
        Did(BottomStep);
        Others();
      }
      bottom := Rearm;
      Did(BottomStep);
      Others();
    }

    method Begin()
      requires Valid() && top == Idle && bottom == Off && queued
      modifies this
      ensures Valid() && top == Idle && bottom == Poll1(0) && Later(old(queues))
    {
      queued := false;
      bottom := Poll1(0);
      Did(BottomStart);
      Others();
    }

    method VRearm()
      requires Valid() && top == Idle && bottom == Rearm
      modifies `qnotifying, `bottom, `trace
      ensures Valid() && bottom == Flags(0) && !qnotifying
    {
      qnotifying := false;
      bottom := Flags(0);
      Did(BottomStep);
    }

    method RestoreFlags()
      requires Valid() && top == Idle && bottom == Flags(0)
      modifies this
      ensures Valid() && top == Idle && bottom == Poll2(0) && Later(old(queues))
    {
      var q := 0;
      while q < |queues|
        invariant Valid() && top == Idle && bottom == Flags(q) && q <= |queues| == |old(queues)| && Later(old(queues))
        decreases |queues| - q
      {
        queues := queues[q := queues[q].(armed := queues[q].interest != 0)];
        q := q + 1;
        bottom := Flags(q);
        Did(BottomStep);
        Others();
      }
      bottom := Poll2(0);
      Did(BottomStep);
      Others();
    }

    method LastPolls(ghost goal: seq<Line>)
      requires Valid() && top == Idle && bottom == Poll2(0) && |goal| == |queues|
      requires forall q :: 0 <= q < |queues| ==> goal[q].used <= queues[q].used
      modifies this
      ensures Valid() && top == Idle && bottom == Off && Later(old(queues))
      ensures forall q :: 0 <= q < |queues| ==> queues[q].seen >= goal[q].used
    {
      var q := 0;
      while q < |queues|
        invariant Valid() && top == Idle && bottom == Poll2(q) && q <= |queues| == |old(queues)| && Later(old(queues))
        invariant forall j :: 0 <= j < |queues| ==> goal[j].used <= queues[j].used
        invariant forall j :: 0 <= j < q ==> queues[j].seen >= goal[j].used
        decreases |queues| - q
      {
        ghost var _ := TraceInv();
        queues := queues[q := Claimed(queues[q])];
        q := q + 1;
        bottom := Poll2(q);
        Did(BottomStep);
        Others();
      }
      bottom := Off;
      Did(BottomStep);
    }
  }
}
