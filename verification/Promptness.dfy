/** The interrupt handshake and the screen-update scheduler together: a pending rectangle is sent once
    the device stops (virtio/virtqueue.c, virtio/transport-classic.c, virtio/device-gpu.c). */
module Promptness {
  import opened Handshake
  import GpuDriver
  import opened GpuScheduler

  /** Step i of the run claims completions of queue q, all there are. */
  ghost predicate ClaimsAt(run: seq<State>, i: nat, q: nat) {
    && i + 1 < |run| && q < |run[i].lines| && q < |run[i + 1].lines|
    && run[i].lines[q].seen < run[i + 1].lines[q].seen == run[i + 1].lines[q].used
  }

  lemma SettleKeeps(s: State, s': State, q: nat)
    requires Inv(s) && Settles(s, s') && q < |s.lines|
    ensures |s'.lines| == |s.lines| && s'.lines[q].used == s.lines[q].used && s'.lines[q].interest == s.lines[q].interest
    ensures s'.lines[q].seen == s.lines[q].seen || s'.lines[q].seen == s.lines[q].used
  {}

  /** While outstanding steps are taken, what a queue has completed does not change, and what has been
      claimed of it changes only by a claim of everything. */
  lemma {:induction false} SettlingKeeps(run: seq<State>, q: nat)
    requires SettlingRun(run) && Inv(run[0]) && q < |run[0].lines|
    ensures var s, s' := run[0], run[|run| - 1];
            && |s'.lines| == |s.lines| && s'.lines[q].used == s.lines[q].used && s'.lines[q].interest == s.lines[q].interest
            && (s'.lines[q].seen != s.lines[q].seen ==> exists i: nat :: ClaimsAt(run, i, q))
  {
    var n := |run| - 1;
    if n > 0 {
      SettlingKeeps(run[..n], q);
      SettlingRunRanks(run[..n]);
      SettleKeeps(run[n - 1], run[n], q);
      assert Inv(run[n - 1]);
      if run[n].lines[q].seen != run[0].lines[q].seen {
        if run[n].lines[q].seen != run[n - 1].lines[q].seen {
          assert run[n - 1].lines[q].seen <= run[n - 1].lines[q].used;
          assert ClaimsAt(run, n - 1, q);
        } else {
          var i: nat :| ClaimsAt(run[..n], i, q);
          assert ClaimsAt(run, i, q);
        }
      }
    }
  }

  /** Once the handshake has settled, a wanted queue that was behind has been polled. */
  lemma SomebodyPolls(run: seq<State>, q: nat)
    requires SettlingRun(run) && Inv(run[0]) && q < |run[0].lines|
    requires run[0].lines[q].interest > 0 && run[0].lines[q].used != run[0].lines[q].seen
    requires Quiet(run[|run| - 1])
    ensures exists i: nat :: ClaimsAt(run, i, q)
  {
    SettlingKeeps(run, q);
    SettlingRunRanks(run);
    QuietMeansCaughtUp(run[|run| - 1]);
  }

  /** Line q of the handshake is the scheduler's queue. */
  ghost predicate IsLineOf(g: GpuDriver.Gpu, s: State, q: nat)
    reads g, g.vq
  {
    && q < |s.lines| && s.lines[q].used == |g.vq.h.done| && s.lines[q].seen == g.vq.h.polled
    && s.lines[q].interest == g.queueInterest
  }

  /** If a rectangle is pending when the device has finished everything, then however interrupts, bottom
      half and clients take the steps outstanding, one of them polls the queue; and the poll finds a
      flush, so that (`PollSends`) nothing is pending after it. */
  lemma PendingIsPolled(g: GpuDriver.Gpu, run: seq<State>, q: nat)
    requires g.Outside() && g.pend != NOTHING && |g.vq.h.done| == |g.vq.h.sent|
    requires SettlingRun(run) && Inv(run[0]) && IsLineOf(g, run[0], q) && Quiet(run[|run| - 1])
    ensures g.HasFlush(g.vq.h.polled, |g.vq.h.done|) && exists i: nat :: ClaimsAt(run, i, q)
  {
    g.NothingStuck();
    SomebodyPolls(run, q);
  }

  method PollSends(g: GpuDriver.Gpu)
    requires g.Outside() && g.HasFlush(g.vq.h.polled, |g.vq.h.done|)
    modifies g, g.vq, g.vq.desc, g.vq.avail, g.vq.used, g.vq.tag, g.page
    ensures g.Outside() && g.pend == NOTHING && g.requests == old(g.requests)
  {
    g.QPoll();
  }
}
