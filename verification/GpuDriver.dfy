/** The screen-update routines themselves (virtio/device-gpu.c, sendPixels and DNotified), with the
    re-entry through QPoll that the interrupt path causes, over the in-place virtqueue. */
module GpuDriver {
  import opened Words
  import opened Virtqueue
  import opened VirtqDriver
  import opened GpuScheduler

  /** What a nested poll must leave alone. */
  datatype Memo = Memo(pairs: seq<Pair>, requests: seq<Request>, pend: Rect, interest: bool, queueInterest: int,
                       outer: (nat, nat), freebufs: set<nat>, live: set<nat>)

  class Gpu {
    const vq: Virtq
    const page: array<Message>  // lpage, in 64-byte blocks
    const layout: Layout        // ppage and rowbytes_front
    const maxinflight: nat
    var freebufs: set<nat>      // the set bits of the source's bitmap
    var reentered: bool
    var interest: bool
    var pend: Rect
    var queueInterest: int      // the queue's interest counter
    var fifo: seq<nat>          // the device's: heads it holds, oldest first
    var seen: seq<Message>      // the device's: messages it has read
    ghost var pairs: seq<Pair>
    ghost var carrier: seq<int>
    ghost var requests: seq<Request>
    ghost var outer: (nat, nat) // the used positions that an outer poll has still to handle

    /** The queue, the message page and the device are in step. */
    ghost predicate Wired()
      reads this, vq, vq.desc, vq.avail, vq.used, vq.tag, page
    {
      && vq.Sealed()
      && 0 < maxinflight <= 16 && vq.size >= 4 * maxinflight && page.Length == 3 * maxinflight && |carrier| == maxinflight
      && Lane(vq.h, layout, pairs, page[..], seen, fifo)
      && Within(vq.h.live, |pairs|, maxinflight)
    }

    /** What sendPixels leaves behind when it is not running: a pending rectangle means that interest
        in the queue is held and that every buffer is busy. */
    ghost predicate Idle()
      reads this
    {
      && !reentered
      && (if interest then Proper(pend) && freebufs == {} else pend == NOTHING)
      && queueInterest == if interest then 1 else 0
    }

    ghost predicate Busy(free: set<nat>)
      reads this, vq
    {
      Buffers(vq.h.live, pairs, free, carrier)
    }

    ghost predicate Remembered()
      reads this
    {
      Covered(requests, pairs, pend) && forall i :: 0 <= i < |requests| ==> requests[i].stamp <= |pairs|
    }

    ghost predicate Outside()
      reads this, vq, vq.desc, vq.avail, vq.used, vq.tag, page
    {
      Wired() && Idle() && Busy(freebufs) && Remembered() && vq.h.pending == {} && |vq.h.sent| == 2 * |pairs| && Left()
    }

    /** What has been claimed and not handled is what the outer poll has left. */
    ghost predicate Left()
      reads this, vq
    {
      vq.h.pending == Span(outer.0, outer.1) && (outer.0 < outer.1 ==> outer.1 <= vq.h.polled)
    }

    /** The part of initialize that concerns updates, on a ring of negotiated size `ringSize`. */
    constructor Initialize(ringSize: nat, where: Layout)
      requires RingSize(ringSize) && 4 <= ringSize <= 64
      ensures Outside() && requests == [] && pairs == []
    {
      var q := new Virtq.QInit(ringSize);
      vq := q;
      page := new Message[3 * (ringSize / 4)](_ => Blank);
      layout := where;
      maxinflight := ringSize / 4;
      freebufs := Span(0, ringSize / 4);
      reentered, interest, pend, queueInterest := false, false, NOTHING, 0;
      fifo, seen := [], [];
      pairs, requests := [], [];
      outer := (0, 0);
      carrier := seq(ringSize / 4, i => -1);
    }

    // ---------------------------------------------------------------- the device

    method DeviceTake()
      requires Wired()
      modifies vq`h, vq`deviceIdx, vq`held, `fifo
      ensures Wired() && DeviceOnly(old(vq.h), vq.h)
    {
      assert Unfold(Seal);
      if vq.deviceIdx != vq.availIdx {
        ghost var h := vq.h;
        assert h.taken < |h.sent|;
        var head := vq.DeviceTake();
        LaneTake(h, layout, pairs, page[..], seen, fifo, vq.h);
        fifo := fifo + [head];
      }
    }

    /** The device reads the message of the oldest chain it holds, acts on it and returns it. */
    method DeviceFinish()
      requires Wired()
      modifies vq`h, vq`usedIdx, vq`held, vq.used, `fifo, `seen
      ensures Wired() && DeviceOnly(old(vq.h), vq.h)
    {
      if |fifo| > 0 {
        ghost var h := vq.h;
        var message := Read();
        Retire();
        LaneFinish(h, layout, pairs, page[..], seen, fifo, vq.h);
        seen := seen + [message];
        fifo := fifo[1..];
      }
    }

    method Read() returns (message: Message)
      requires Wired() && |fifo| > 0
      ensures |vq.h.done| / 2 < |pairs| && BlockAt(pairs, |vq.h.done|) < page.Length
      ensures message == page[BlockAt(pairs, |vq.h.done|)]
    {
      assert Unfold(Seal);
      Oldest(vq.State(), vq.h, layout, pairs, page[..], seen, fifo, vq.held);
      message := page[(vq.desc[fifo[0]].addr - layout.base) / BLOCK];
    }

    method Retire()
      requires Wired() && |fifo| > 0
      modifies vq`h, vq`usedIdx, vq`held, vq.used
      ensures vq.Sealed() && DeviceOnly(old(vq.h), vq.h)
      ensures vq.h == old(vq.h).(done := old(vq.h).done + [|old(vq.h).done|], doneLen := vq.h.doneLen)
    {
      assert Unfold(Seal);
      ghost var h, r := vq.h, vq.State();
      Oldest(r, h, layout, pairs, page[..], seen, fifo, vq.held);
      assert |h.done| < |h.sent|;
      WindowUnharmed(r, h, |pairs|, maxinflight);
      var head, len: nat := fifo[0], *;
      ghost var p := vq.DeviceComplete(head, len);
      HeadNames(r, h, p, |h.done|);
    }

    /** Any number of device steps, chains completing in the order they were sent. */
    method Device()
      requires Wired()
      modifies vq`h, vq`deviceIdx, vq`usedIdx, vq`held, vq.used, `fifo, `seen
      ensures Wired() && DeviceOnly(old(vq.h), vq.h)
    {
      var n: nat := *;
      while n > 0
        invariant Wired() && DeviceOnly(old(vq.h), vq.h)
      {
        n := n - 1;
        var taking: bool := *;
        if taking {
          DeviceTake();
        } else {
          DeviceFinish();
        }
      }
    }

    // ---------------------------------------------------------------- the driver's queue

    /** The read-and-advance at the start of QPoll. */
    method Claim() returns (i: nat, end: nat)
      requires Wired()
      modifies vq`usedCtr, vq`h
      ensures Wired()
      ensures var h := old(vq.h);
              && vq.h == h.(polled := |h.done|, pending := h.pending + Span(h.polled, |h.done|))
              && (forall x :: x in h.pending ==> x < h.polled)
              && i == h.polled % U16 && end == |h.done| % U16 && h.polled <= |h.done| < h.polled + U16
    {
      assert Unfold(Seal);
      ghost var h := vq.h;
      UsedFits(vq.State(), h, h.polled, []);
      i, end := vq.QPollBegin();
      LaneKept(h, layout, pairs, page[..], seen, fifo, vq.h);
    }

    /** QPoll reclaims the chain at position `k`; `t` is the tag for DNotified. */
    method Handle(i: nat, ghost k: nat) returns (t: nat)
      requires Wired() && Busy(freebufs) && k in vq.h.pending && i == k % U16
      modifies vq.desc, vq`h, `carrier
      ensures Wired()
      ensures var h := old(vq.h);
              && k in h.live && k < h.polled
              && vq.h == h.(pending := h.pending - {k}, live := h.live - {k}, reported := vq.h.reported,
                            log := vq.h.log, owner := vq.h.owner)
      ensures k / 2 < |pairs| && t == if k % 2 == 0 then TFER else pairs[k / 2].buf
      ensures t < 256 <==> k % 2 == 1
      ensures Busy(if t < 256 then freebufs + {t} else freebufs)
    {
      assert Unfold(Seal);
      ghost var h := vq.h;
      assert Unread(h, k) && h.done[k] == k && k in h.live;
      assert IsCommand(h.sent[k], layout, pairs, k);
      var _, tag := vq.QPollOne(i, k);
      t := tag;
      HandleBuffers(h, pairs, freebufs, carrier, k, vq.h);
      if k % 2 == 1 {
        carrier := carrier[pairs[k / 2].buf := -1];
      }
      LaneKept(h, layout, pairs, page[..], seen, fifo, vq.h);
    }

    /** Sends one command of the newest pair. */
    method Post(addrs: seq<nat>, sizes: seq<nat>, t: nat, ghost free: set<nat>)
      requires Wired() && Busy(free)
      requires |vq.h.sent| < 2 * |pairs| && |vq.h.sent| / 2 == |pairs| - 1 && pairs[|pairs| - 1].buf in free
      requires BlockAt(pairs, |vq.h.sent|) < page.Length
      requires page[BlockAt(pairs, |vq.h.sent|)] == MessageAt(layout, pairs, |vq.h.sent|)
      requires |addrs| == |sizes| == 2 && addrs[0] == layout.base + BLOCK * BlockAt(pairs, |vq.h.sent|)
      requires addrs[1] == layout.base + BLOCK * (3 * pairs[|pairs| - 1].buf + 2) + |vq.h.sent| % 2 * 32
      requires sizes == [if |vq.h.sent| % 2 == 0 then 56 else 48, 24]
      requires t == if |vq.h.sent| % 2 == 0 then TFER else pairs[|pairs| - 1].buf
      modifies vq`availIdx, vq`h, vq.desc, vq.avail, vq.tag, `carrier
      ensures Wired()
      ensures Busy(if old(|vq.h.sent|) % 2 == 1 then free - {t} else free)
      ensures var h := old(vq.h);
              |vq.h.sent| == |h.sent| + 1 &&
              vq.h == h.(sent := h.sent + [vq.h.sent[|h.sent|]], live := h.live + {|h.sent|}, owner := vq.h.owner)
    {
      ghost var h, p := vq.h, |vq.h.sent|;
      ghost var c := Enqueue(addrs, sizes, t);
      assert p !in h.live;
      LanePost(h, layout, pairs, page[..], seen, fifo, c, vq.h);
      SendBuffers(h.live, pairs, free, carrier, p);
      carrier := if p % 2 == 1 then carrier[t := p] else carrier;
    }

    /** The queue always has the two descriptors a command needs. */
    method Enqueue(addrs: seq<nat>, sizes: seq<nat>, t: nat) returns (ghost c: Chain)
      requires Wired() && |vq.h.sent| < 2 * |pairs| && |addrs| == |sizes| == 2
      modifies vq`availIdx, vq`h, vq.desc, vq.avail, vq.tag
      ensures vq.Sealed()
      ensures c == Chain(c.bufs, addrs, sizes, 1, t) && |c.bufs| == 2
      ensures var h := old(vq.h);
              vq.h == h.(sent := h.sent + [c], live := h.live + {|h.sent|}, owner := vq.h.owner)
      ensures forall p :: p in old(vq.h).live ==> p < old(|vq.h.sent|)
    {
      assert Unfold(Seal);
      ghost var h := vq.h;
      Room(vq.State(), h, layout, pairs, maxinflight);
      var ok := vq.QSend(1, 1, addrs, sizes, t);
      c := vq.h.sent[|h.sent|];
    }

    /** The end of sendPixels: fills in the two messages of buffer `i` and sends them. */
    method SendPair(i: nat, r: Rect)
      requires Wired() && Busy(freebufs + {i}) && i < maxinflight && i !in freebufs
      requires |vq.h.sent| == 2 * |pairs| && Within(vq.h.live, |pairs|, maxinflight - 1)
      modifies vq`h, vq`deviceIdx, vq`usedIdx, vq`availIdx, vq`held, vq.desc, vq.avail, vq.used, vq.tag, page
      modifies `fifo, `seen, `pairs, `carrier
      ensures Wired() && Busy(freebufs) && |vq.h.sent| == 2 * |pairs|
      ensures pairs == old(pairs) + [Pair(i, r)]
      ensures vq.h.pending == old(vq.h).pending && vq.h.polled == old(vq.h).polled
    {
      Announce(Pair(i, r), freebufs + {i});
      SendTransfer(i, r);
      Device();
      SendFlush(i, r);
    }

    /** Pair (i, r) is the newest one, and none before it still needs the messages of buffer `i`. */
    ghost predicate Newest(i: nat, r: Rect)
      reads this, vq
    {
      && |pairs| > 0 && pairs[|pairs| - 1] == Pair(i, r) && i < maxinflight && i !in freebufs
      && Untouched(vq.h, pairs, |pairs| - 1, i)
    }

    method SendTransfer(i: nat, r: Rect)
      requires Wired() && Busy(freebufs + {i}) && Newest(i, r) && |vq.h.sent| == 2 * |pairs| - 2
      modifies vq`h, vq`availIdx, vq.desc, vq.avail, vq.tag, page, `carrier
      ensures Wired() && Busy(freebufs + {i}) && Newest(i, r) && |vq.h.sent| == 2 * |pairs| - 1
      ensures vq.h.pending == old(vq.h).pending && vq.h.polled == old(vq.h).polled
    {
      var phys := layout.base + 3 * BLOCK * i;
      WriteMessage(Transfer(r.left, r.top, r.right - r.left, r.bottom - r.top, r.top * layout.rowbytes + r.left * 4), 3 * i);
      Post([phys, phys + 2 * BLOCK], [56, 24], TFER, freebufs + {i});
    }

    method SendFlush(i: nat, r: Rect)
      requires Wired() && Busy(freebufs + {i}) && Newest(i, r) && |vq.h.sent| == 2 * |pairs| - 1
      modifies vq`h, vq`availIdx, vq.desc, vq.avail, vq.tag, page, `carrier
      ensures Wired() && Busy(freebufs) && |vq.h.sent| == 2 * |pairs|
      ensures vq.h.pending == old(vq.h).pending && vq.h.polled == old(vq.h).polled
    {
      var phys := layout.base + 3 * BLOCK * i;
      WriteMessage(Flush(r.left, r.top, r.right - r.left, r.bottom - r.top), 3 * i + 1);
      Post([phys + BLOCK, phys + 160], [48, 24], i, freebufs + {i});
      assert freebufs + {i} - {i} == freebufs;
    }

    ghost method Announce(pair: Pair, free: set<nat>)
      requires Wired() && Busy(free) && pair.buf in free
      requires |vq.h.sent| == 2 * |pairs| && Within(vq.h.live, |pairs|, maxinflight - 1)
      modifies `pairs
      ensures Wired() && Busy(free) && pairs == old(pairs) + [pair]
      ensures Untouched(vq.h, pairs, |pairs| - 1, pair.buf)
    {
      assert Unfold(Seal);
      LiveIs(vq.h);
      FreeIsUntouched(vq.h, pairs, free, carrier, pair.buf);
      AnnounceBuffers(vq.h.live, pairs, free, carrier, pair);
      LaneAnnounce(vq.h, layout, pairs, page[..], seen, fifo, pair);
      pairs := pairs + [pair];
    }

    method WriteMessage(message: Message, x: nat)
      requires Wired() && |pairs| > 0 && Untouched(vq.h, pairs, |pairs| - 1, pairs[|pairs| - 1].buf)
      requires |vq.h.sent| < 2 * |pairs| && x == BlockAt(pairs, |vq.h.sent|) < page.Length
      requires message == MessageAt(layout, pairs, |vq.h.sent|)
      modifies page
      ensures Wired() && page[x] == message
    {
      RewriteKeeps(vq.h, layout, pairs, page[..], seen, fifo);
      ghost var was := page[..];
      page[x] := message;
      assert page[..] == was[x := message];
    }

    // ---------------------------------------------------------------- re-entry

    /** What holds between any two steps of these routines. */
    ghost predicate Running()
      reads this, vq, vq.desc, vq.avail, vq.used, vq.tag, page
    {
      Wired() && Remembered() && |vq.h.sent| == 2 * |pairs|
    }

    /** There is room in the queue for another pair. */
    ghost predicate Roomy()
      reads this, vq
    {
      Within(vq.h.live, |pairs|, maxinflight - 1)
    }

    /** QPoll, as called by the interrupt path and, nested, by sendPixels. It calls DNotified once for
        every element that was in the used ring at its start, whatever a nested poll reclaims
        meanwhile. If one of them was a flush, nothing is left pending. */
    method QPoll()
      requires Running() && Busy(freebufs) && Left()
      requires !reentered ==> Idle() && vq.h.pending == {}
      modifies this, vq, vq.desc, vq.avail, vq.used, vq.tag, page
      ensures Running() && Busy(freebufs) && reentered == old(reentered) && Left()
      ensures vq.h.pending == old(vq.h).pending
      ensures old(vq.h).polled <= old(|vq.h.done|) <= vq.h.polled
      ensures !reentered ==> Idle() && requests == old(requests)
      ensures !reentered && HasFlush(old(vq.h).polled, |old(vq.h).done|) ==> pend == NOTHING
      ensures reentered ==> Undisturbed(old(Here()))
      decreases if reentered then 0 else 1, 5
    {
      var i, end := Claim();
      PollAll(i, end, old(vq.h).polled, vq.h.polled);
    }

    /** QPoll's loop. */
    method PollAll(i0: nat, end: nat, ghost k0: nat, ghost stop: nat)
      requires Running() && Busy(freebufs) && InHand(k0, stop)
      requires i0 == k0 % U16 && end == stop % U16 && stop < k0 + U16
      requires !reentered ==> Idle() && outer.0 >= outer.1
      modifies this, vq, vq.desc, vq.avail, vq.used, vq.tag, page
      ensures Running() && Busy(freebufs) && reentered == old(reentered) && InHand(stop, stop)
      ensures old(vq.h).polled <= vq.h.polled
      ensures !reentered ==> Idle() && requests == old(requests) && outer.0 >= outer.1
      ensures !reentered ==> (old(pend) == NOTHING || HasFlush(k0, stop) ==> pend == NOTHING)
      ensures reentered ==> Undisturbed(old(Here()))
      decreases if reentered then 0 else 1, 4
    {
      var i := i0;
      ghost var k, flushed := k0, false;
      while i != end
        invariant Running() && Busy(freebufs) && reentered == old(reentered) && InHand(k, stop)
        invariant k0 <= k && i == k % U16 && old(vq.h).polled <= vq.h.polled
        invariant !reentered ==> outer.0 >= outer.1 || outer == (k, stop)
        invariant !reentered ==> (old(pend) == NOTHING || flushed ==> pend == NOTHING)
        invariant flushed == HasFlush(k0, k)
        invariant Resting(old(Here()))
        decreases stop - k
      {
        i := PollElement(i, k, stop);
        FlushNext(k0, k);
        k, flushed := k + 1, flushed || k % 2 == 1;
      }
      EndReached(k, stop);
    }

    /** Between two iterations, in a poll that began at `m`. */
    ghost predicate Resting(m: Memo)
      reads this, vq
    {
      if reentered then Undisturbed(m) else Idle() && requests == m.requests
    }

    /** Some position from k on, below stop, is a flush's. */
    ghost predicate HasFlush(k: nat, stop: nat) {
      exists f: nat :: k <= f < stop && f % 2 == 1
    }

    lemma FlushNext(k0: nat, k: nat)
      requires k0 <= k
      ensures HasFlush(k0, k + 1) <==> HasFlush(k0, k) || k % 2 == 1
    {
      if k % 2 == 1 { assert k0 <= k < k + 1; }
    }

    /** What an outer poll has left; nothing if this is the outer poll. */
    ghost function Ahead(): set<nat>
      reads this
    {
      if reentered then Span(outer.0, outer.1) else {}
    }

    /** This poll has still to handle positions k to stop, beside what an outer poll has left. A nested
        poll was the last to read the used index. */
    ghost predicate InHand(k: nat, stop: nat)
      reads this, vq
    {
      && vq.h.pending == Ahead() + Span(k, stop) && k <= stop <= vq.h.polled && ClaimedBefore(k)
      && (reentered ==> stop == vq.h.polled)
    }

    ghost predicate ClaimedBefore(k: nat)
      reads this
    {
      reentered && outer.0 < outer.1 ==> outer.1 <= k
    }

    /** At most one pair is half reclaimed: its flush by a nested poll, its transfer not yet. */
    ghost predicate AtMostOneSplit()
      reads vq
    {
      OneSplit(vq.h.live)
    }

    lemma Booked()
      requires vq.Sealed()
      ensures Bookkeeping(vq.h)
    {
      assert Unfold(Seal);
    }

    lemma SplitNow(k: nat, stop: nat)
      requires Running() && InHand(k, stop)
      ensures AtMostOneSplit()
    {
      Booked();
      if reentered {
        SplitAtMostOnce(vq.h, outer.0, outer.1, k, stop);
      } else {
        SplitAtMostOnce(vq.h, 0, 0, k, stop);
      }
    }

    /** One iteration of QPoll, for the element at position `k`. */
    method PollElement(i: nat, ghost k: nat, ghost stop: nat) returns (i': nat)
      requires Running() && Busy(freebufs) && i == k % U16 && InHand(k, stop) && k < stop
      requires !reentered ==> Idle()
      modifies this, vq, vq.desc, vq.avail, vq.used, vq.tag, page
      ensures Running() && Busy(freebufs) && reentered == old(reentered) && i' == (k + 1) % U16
      ensures InHand(k + 1, stop) && old(vq.h).polled <= vq.h.polled
      ensures outer == if reentered then old(outer) else (k + 1, stop)
      ensures !reentered ==> Idle() && requests == old(requests) && (old(pend) == NOTHING || k % 2 == 1 ==> pend == NOTHING)
      ensures reentered ==> Undisturbed(old(Here()))
      decreases if reentered then 0 else 1, 3
    {
      var t := Reclaim(i, k, stop);
      DNotified(t);
      NextIndex(k);
      i' := (i + 1) % U16;
    }

    /** The device runs on; then QPoll reclaims the chain at position `k`. */
    method Reclaim(i: nat, ghost k: nat, ghost stop: nat) returns (t: nat)
      requires Running() && Busy(freebufs) && InHand(k, stop) && k < stop && i == k % U16
      modifies vq`h, vq`deviceIdx, vq`usedIdx, vq`held, vq.used, vq.desc, `fifo, `seen, `carrier, `outer
      ensures Running() && Busy(if t < 256 then freebufs + {t} else freebufs)
      ensures InHand(k + 1, stop) && vq.h.polled == old(vq.h).polled
      ensures outer == if reentered then old(outer) else (k + 1, stop)
      ensures vq.h.live <= old(vq.h).live
      ensures AtMostOneSplit()
      ensures t < 256 <==> k % 2 == 1
      ensures !reentered ==> Left() && (t < 256 ==> Roomy())
    {
      Device();
      assert k in Span(k, stop);
      t := HandleNext(i, k, stop);
      SplitNow(k + 1, stop);
    }

    method HandleNext(i: nat, ghost k: nat, ghost stop: nat) returns (t: nat)
      requires Running() && Busy(freebufs) && InHand(k, stop) && k < stop && i == k % U16 && k in vq.h.pending
      modifies vq.desc, vq`h, `carrier, `outer
      ensures Running() && Busy(if t < 256 then freebufs + {t} else freebufs)
      ensures InHand(k + 1, stop) && vq.h.polled == old(vq.h).polled
      ensures outer == if reentered then old(outer) else (k + 1, stop)
      ensures vq.h.live <= old(vq.h).live
      ensures t < 256 <==> k % 2 == 1
      ensures !reentered ==> Left() && (t < 256 ==> Roomy())
    {
      ghost var h := vq.h;
      t := Handle(i, k);
      StillClaimed(Ahead(), k, stop);
      if !reentered {
        outer := (k + 1, stop);
        LeftRoom(h.live, k, stop, t < 256);
      }
    }

    lemma LeftRoom(live: set<nat>, k: nat, stop: nat, flush: bool)
      requires Wired() && !reentered && vq.h.pending == Span(k + 1, stop) && k < stop <= vq.h.polled
      requires k in live && vq.h.live == live - {k} && Within(live, |pairs|, maxinflight) && outer == (k + 1, stop)
      requires flush ==> k % 2 == 1
      ensures Left() && (flush ==> Roomy())
    {
      if flush { RoomAfter(live, k); }
    }

    lemma RoomAfter(live: set<nat>, k: nat)
      requires Wired() && k in live && k % 2 == 1 && k < vq.h.polled && vq.h.live == live - {k}
      requires Within(live, |pairs|, maxinflight) && forall x :: x in vq.h.pending ==> k < x
      ensures Roomy()
    {
      assert Unfold(Seal);
      LiveIs(vq.h);
      RoomAfterFlush(live, |pairs|, maxinflight, k, vq.h.live);
    }

    ghost function Here(): Memo
      reads this, vq
    {
      Memo(pairs, requests, pend, interest, queueInterest, outer, freebufs, vq.h.live)
    }

    /** A nested poll changes nothing but that buffers come free. */
    ghost predicate Undisturbed(m: Memo)
      reads this, vq
    {
      Here() == m.(freebufs := freebufs, live := vq.h.live) && m.freebufs <= freebufs && vq.h.live <= m.live
    }

    /** Called by QPoll for each chain it reclaims. */
    method DNotified(t: nat)
      requires Running() && Busy(if t < 256 then freebufs + {t} else freebufs)
      requires !reentered ==> Idle() && Left() && (t < 256 ==> Roomy())
      requires AtMostOneSplit()
      modifies this, vq, vq.desc, vq.avail, vq.used, vq.tag, page
      ensures Running() && Busy(freebufs) && reentered == old(reentered) && outer == old(outer)
      ensures vq.h.pending == old(vq.h).pending
      ensures old(vq.h).polled <= vq.h.polled && (reentered ==> vq.h.polled == old(vq.h).polled)
      ensures !reentered ==> Idle() && requests == old(requests) && (old(pend) == NOTHING || t < 256 ==> pend == NOTHING)
      ensures reentered ==> Undisturbed(old(Here()))
      decreases if reentered then 0 else 1, 2
    {
      if t < 256 {
        freebufs := freebufs + {t};
        SendPixels(NOTHING);
      }
    }

    /** Queues a transfer and a flush of the union of `r` and the pending rectangle, or makes that
        union pending until a buffer comes free. */
    method SendPixels(r: Rect)
      requires Running() && Busy(freebufs) && Given(r)
      requires reentered ==> r == NOTHING
      requires !reentered ==> Wanting() && Left() && (vq.h.pending != {} ==> Roomy())
      modifies this, vq, vq.desc, vq.avail, vq.used, vq.tag, page
      ensures Running() && Busy(freebufs) && reentered == old(reentered) && outer == old(outer)
      ensures vq.h.pending == old(vq.h).pending && old(vq.h).polled <= vq.h.polled
      ensures !reentered ==> Idle() && (interest ==> old(|vq.h.done|) <= vq.h.polled)
      ensures !reentered ==> requests == if Empty(r) then old(requests) else old(requests) + [Request(r, old(|pairs|))]
      ensures !reentered && old(freebufs) != {} ==> pend == NOTHING
      ensures reentered ==> Undisturbed(old(Here())) && vq.h == old(vq.h)
      decreases if reentered then 0 else 1, 1
    {
      if reentered {
        return;
      }
      var u := Union(r, pend);
      UnionProper(r, pend);
      if u.top >= u.bottom || u.left >= u.right {
        return;
      }
      if !interest {
        interest := true;
        queueInterest := queueInterest + 1;
      }
      PollInside();
      Submit(r, u, old(|pairs|));
    }

    /** Interest in the queue is held exactly while a rectangle is pending. */
    ghost predicate Wanting()
      reads this
    {
      (if interest then Proper(pend) else pend == NOTHING) && queueInterest == if interest then 1 else 0
    }

    /** The poll from within sendPixels. */
    method PollInside()
      requires Running() && Busy(freebufs) && !reentered && Left()
      modifies this, vq, vq.desc, vq.avail, vq.used, vq.tag, page
      ensures Running() && Busy(freebufs) && !reentered && Left()
      ensures vq.h.pending == old(vq.h).pending && old(vq.h).polled <= old(|vq.h.done|) <= vq.h.polled
      ensures Undisturbed(old(Here()))
      decreases if reentered then 0 else 1, 0
    {
      reentered := true;
      QPoll();
      reentered := false;
    }

    /** The rest of sendPixels: sends `u` if a buffer is free, or makes it pending. */
    method Submit(r: Rect, u: Rect, ghost stamp: nat)
      requires Running() && Busy(freebufs) && !reentered && interest && queueInterest == 1 && stamp == |pairs|
      requires Proper(u) && Contains(u, r) && Contains(u, pend) && (vq.h.pending != {} ==> Roomy())
      modifies vq`h, vq`deviceIdx, vq`usedIdx, vq`availIdx, vq`held, vq.desc, vq.avail, vq.used, vq.tag, page
      modifies `fifo, `seen, `pairs, `carrier, `freebufs, `requests, `pend, `interest, `queueInterest
      ensures Running() && Busy(freebufs) && Idle()
      ensures vq.h.pending == old(vq.h).pending && vq.h.polled == old(vq.h).polled
      ensures requests == if Empty(r) then old(requests) else old(requests) + [Request(r, stamp)]
      ensures old(freebufs) != {} ==> pend == NOTHING
    {
      Remember(r, stamp, u);
      if freebufs == {} {
        pend := u;
        return;
      }
      interest := false;
      queueInterest := queueInterest - 1;
      UseBuffer(u);
      pend := NOTHING;
    }

    /** Sends rectangle `r` with the lowest free buffer. */
    method UseBuffer(r: Rect)
      requires Wired() && Busy(freebufs) && |vq.h.sent| == 2 * |pairs| && freebufs != {}
      requires vq.h.pending != {} ==> Roomy()
      requires Covered(requests, pairs, r) && forall i :: 0 <= i < |requests| ==> requests[i].stamp <= |pairs|
      modifies vq`h, vq`deviceIdx, vq`usedIdx, vq`availIdx, vq`held, vq.desc, vq.avail, vq.used, vq.tag, page
      modifies `fifo, `seen, `pairs, `carrier, `freebufs
      ensures Wired() && Busy(freebufs) && |vq.h.sent| == 2 * |pairs|
      ensures vq.h.pending == old(vq.h).pending && vq.h.polled == old(vq.h).polled
      ensures |pairs| == old(|pairs|) + 1 && old(pairs) <= pairs
      ensures Covered(requests, pairs, NOTHING)
    {
      EnoughRoom();
      var i := TakeBuffer();
      assert freebufs + {i} == old(freebufs);
      SendPair(i, r);
      CoverSend(requests, old(pairs), r, Pair(i, r), NOTHING);
    }

    ghost method Remember(r: Rect, stamp: nat, u: Rect)
      requires Remembered() && stamp <= |pairs| && Contains(u, r) && Contains(u, pend)
      modifies `requests
      ensures requests == if Empty(r) then old(requests) else old(requests) + [Request(r, stamp)]
      ensures Covered(requests, pairs, u) && forall i :: 0 <= i < |requests| ==> requests[i].stamp <= |pairs|
    {
      CoverGrow(requests, pairs, pend, u);
      if !Empty(r) {
        CoverAdd(requests, pairs, u, Request(r, stamp));
        requests := requests + [Request(r, stamp)];
      }
    }

    lemma EnoughRoom()
      requires Wired() && Busy(freebufs) && |vq.h.sent| == 2 * |pairs| && freebufs != {}
      ensures vq.h.pending == {} ==> Roomy()
    {
      assert Unfold(Seal);
      if vq.h.pending == {} {
        var b :| b in freebufs;
        RoomFromFreeBuffer(vq.h, pairs, freebufs, carrier, b);
      }
    }

    /** Picks the lowest free buffer. */
    method TakeBuffer() returns (i: nat)
      requires Busy(freebufs) && |carrier| == maxinflight && freebufs != {}
      modifies `freebufs
      ensures i < maxinflight && i in old(freebufs) && freebufs == old(freebufs) - {i}
      ensures forall b: nat :: b < i ==> b !in freebufs
    {
      ghost var b :| b in freebufs;
      i := 0;
      while i !in freebufs
        invariant forall b: nat :: b < i ==> b !in freebufs
        invariant i <= b
        decreases b - i
      {
        i := i + 1;
      }
      freebufs := freebufs - {i};
    }

    // ---------------------------------------------------------------- whole runs

    /** Rectangles passed one after another, with any number of interrupts and device steps between. Those
        that have pixels become requests. */
    method Session(rects: seq<Rect>)
      requires Outside() && forall j :: 0 <= j < |rects| ==> Given(rects[j])
      modifies this, vq, vq.desc, vq.avail, vq.used, vq.tag, page
      ensures Outside() && RectsOf(requests) == RectsOf(old(requests)) + Drawn(rects)
    {
      assert rects[..0] == [] && rects[..|rects|] == rects;
      for j := 0 to |rects|
        invariant Outside() && RectsOf(requests) == RectsOf(old(requests)) + Drawn(rects[..j])
      {
        Interlude();
        assert rects[..j + 1][..j] == rects[..j];
        SendPixels(rects[j]);
      }
      Interlude();
    }

    method Interlude()
      requires Outside()
      modifies this, vq, vq.desc, vq.avail, vq.used, vq.tag, page
      ensures Outside() && requests == old(requests)
    {
      var n: nat := *;
      while n > 0
        invariant Outside() && requests == old(requests)
      {
        n := n - 1;
        var interrupt: bool := *;
        if interrupt {
          QPoll();
        } else {
          Device();
        }
      }
    }

    /** However polls were nested, each chain polled so far was passed to DNotified exactly once. */
    lemma EachHandledOnce(p: nat)
      requires Outside() && p < |vq.h.sent|
      ensures Bookkeeping(vq.h) && Reports(vq.h) && |CallsFor(vq.h, p)| == if p < vq.h.polled then 1 else 0
    {
      assert Unfold(Seal);
      HandledOnce(vq.State(), vq.h, p);
    }

    /** If the device has finished everything and a rectangle is still pending, some flush is waiting
        to be polled; so the next QPoll leaves nothing pending. */
    lemma NothingStuck()
      requires Outside() && |vq.h.done| == |vq.h.sent| && pend != NOTHING
      ensures HasFlush(vq.h.polled, |vq.h.done|)
    {
      assert Unfold(Seal);
      AllBusy(vq.h.live, pairs, carrier, 0);
      var p: nat :| p in vq.h.live && IsCarrier(vq.h.live, pairs, 0, p);
      LiveIs(vq.h);
      assert vq.h.polled <= p < |vq.h.done| && p % 2 == 1;
    }

    /** When the queue has drained and nothing is pending, the device has shown every rectangle ever
        passed in, by messages queued since. */
    lemma DrainedMeansShown(i: nat)
      requires Outside() && |vq.h.done| == |vq.h.sent| && pend == NOTHING
      requires i < |requests| && Proper(requests[i].rect)
      ensures exists q: nat :: 2 * requests[i].stamp <= q && ShownAt(seen, q, layout.rowbytes, requests[i].rect)
    {
      EverythingShown(vq.h, layout, pairs, seen, requests, i);
    }

    /** No two buffers that the device may still read or write overlap. */
    lemma InFlightApart(p: nat, i: nat, q: nat, j: nat)
      requires Outside()
      requires |vq.h.done| <= p < |vq.h.sent| && |vq.h.done| <= q < |vq.h.sent| && i < 2 && j < 2 && (p != q || i != j)
      ensures NoOverlap(vq.h.sent[p], i, vq.h.sent[q], j)
      ensures layout.base <= vq.h.sent[p].addrs[i]
      ensures vq.h.sent[p].addrs[i] + vq.h.sent[p].sizes[i] <= layout.base + 0x1000
    {
      assert Unfold(Seal);
      BuffersApart(vq.h, layout, pairs, freebufs, carrier, p, i, q, j);
    }
  }

  /** After handling position `k`, an outer poll's elements and the rest of this one's remain. */
  lemma StillClaimed(outer: set<nat>, k: nat, stop: nat)
    requires k < stop && k !in outer
    ensures outer + Span(k, stop) - {k} == outer + Span(k + 1, stop)
  {}
}
