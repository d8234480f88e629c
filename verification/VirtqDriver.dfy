/** The virtqueue routines themselves, working in place on the rings (virtio/virtqueue.c). */
module VirtqDriver {
  import opened Words
  import opened Virtqueue

  ghost function FreeBelow(desc: seq<Desc>, n: nat): (s: set<nat>)
    requires n <= |desc|
    ensures forall i: nat :: i in s <==> i < n && desc[i].next == FREE
  {
    set i: nat | i < n && desc[i].next == FREE
  }

  /** How many descriptors are free. */
  ghost function FreeCount(desc: seq<Desc>): nat {
    |FreeBelow(desc, |desc|)|
  }

  lemma {:induction false} DistinctCount(s: seq<nat>, t: set<nat>)
    requires forall i, j :: 0 <= i < j < |s| ==> s[i] != s[j]
    requires forall i :: 0 <= i < |s| ==> s[i] in t
    ensures |s| <= |t|
    ensures (forall x :: x in t ==> x in s) ==> |s| == |t|
  {
    if |s| > 0 {
      DistinctCount(s[1..], t - {s[0]});
      if forall x :: x in t ==> x in s {
        forall x | x in t - {s[0]} ensures x in s[1..] {}
      }
    } else if forall x :: x in t ==> x in s {
      assert t == {};
    }
  }

  /** Chain `p` is with the device. */
  ghost predicate Held(h: History, p: nat) {
    p < h.taken && p < |h.sent| && p in h.live && p !in h.done && |h.sent[p].bufs| > 0
  }

  ghost predicate HeldHeads(held: set<nat>, h: History) {
    && (forall p: nat :: Held(h, p) ==> h.sent[p].bufs[0] in held)
    && (forall x :: x in held ==> exists p: nat :: Held(h, p) && h.sent[p].bufs[0] == x)
  }

  lemma SendHeld(held: set<nat>, h: History, c: Chain, h': History)
    requires HeldHeads(held, h) && h.taken <= |h.sent|
    requires h' == h.(sent := h.sent + [c], live := h.live + {|h.sent|}, owner := h'.owner)
    ensures HeldHeads(held, h')
  {
    assert forall p: nat :: (Held(h, p) <==> Held(h', p)) && (Held(h, p) ==> h'.sent[p] == h.sent[p]);
  }

  lemma TakeHeld(held: set<nat>, h: History, h': History)
    requires Bookkeeping(h) && HeldHeads(held, h) && h.taken < |h.sent| && |h.sent[h.taken].bufs| > 0
    requires h' == h.(taken := h.taken + 1)
    ensures HeldHeads(held + {h.sent[h.taken].bufs[0]}, h')
  {
    assert h.taken !in h.done && Held(h', h.taken);
    assert forall p: nat :: Held(h', p) <==> Held(h, p) || p == h.taken;
  }

  lemma TakeReads(r: Ring, h: History)
    requires Inv(r, h) && h.taken < |h.sent|
    ensures |h.sent[h.taken].bufs| > 0 && r.avail[Slot(h.taken % U16, r.size)] == h.sent[h.taken].bufs[0]
  {
    SlotWraps(h.taken, r.size);
  }

  lemma CompleteHeld(r: Ring, h: History, p: nat, held: set<nat>, h': History)
    requires Inv(r, h) && HeldHeads(held, h) && Held(h, p)
    requires h' == h.(done := h.done + [p], doneLen := h'.doneLen)
    ensures HeldHeads(held - {h.sent[p].bufs[0]}, h')
  {
    var head := h.sent[p].bufs[0];
    assert h.owner[h.sent[p].bufs[0]] == p;
    forall q: nat | Held(h', q) ensures Held(h, q) && h.sent[q].bufs[0] in held - {head} {
      assert q != p && q !in h.done;
      assert h.owner[h.sent[q].bufs[0]] == q;
    }
    forall x | x in held - {head} ensures exists q: nat :: Held(h', q) && h'.sent[q].bufs[0] == x {
      var q: nat :| Held(h, q) && h.sent[q].bufs[0] == x;
      assert Held(h', q);
    }
  }

  /** Only the device has moved: the driver's side of the history is unchanged. */
  ghost predicate DeviceOnly(h: History, h': History) {
    && h' == h.(taken := h'.taken, done := h'.done, doneLen := h'.doneLen)
    && h.taken <= h'.taken && h.done <= h'.done && h.doneLen <= h'.doneLen
  }

  class Virtq {
    const size: nat
    const desc: array<Desc>
    var availIdx: nat
    const avail: array<nat>
    var usedIdx: nat
    const used: array<Used>
    var usedCtr: nat
    const tag: array<nat>
    var deviceIdx: nat  // the device's own count of available slots it has read, 16 bits
    var held: set<nat>  // heads of the chains the device has taken and not returned
    ghost var h: History

    ghost function State(): Ring
      reads this, desc, avail, used, tag
    {
      Ring(size, desc[..], availIdx, avail[..], usedIdx, used[..], usedCtr, tag[..])
    }

    ghost predicate Valid()
      reads this, desc, avail, used, tag
    {
      avail != tag && deviceIdx == h.taken % U16 && Inv(State(), h) && HeldHeads(held, h)
    }

    /** `Valid()` kept folded, so that the callers of this class can pass it around cheaply. */
    ghost predicate Sealed()
      reads this, desc, avail, used, tag
    {
      forall s: Seal {:trigger Unfold(s)} :: Unfold(s) ==> Valid()
    }

    /** QInit for a queue whose negotiated size is a power of two. */
    constructor QInit(ringSize: nat)
      requires RingSize(ringSize)
      ensures Valid() && Init(State(), h) && size == ringSize
      ensures fresh(desc) && fresh(avail) && fresh(used) && fresh(tag)
    {
      size := ringSize;
      desc := new Desc[ringSize](_ => Desc(0, 0, 0, 0));
      avail := new nat[ringSize](_ => 0);
      used := new Used[ringSize](_ => Used(0, 0));
      tag := new nat[ringSize](_ => 0);
      availIdx, usedIdx, usedCtr, deviceIdx := 0, 0, 0, 0;
      held := {};
      h := History([], 0, [], [], 0, {}, [], [], {}, seq(ringSize, i => -1));
      new;
      for i := 0 to size
        invariant fresh(desc) && fresh(avail) && fresh(used) && fresh(tag) && avail != tag
        invariant desc.Length == avail.Length == used.Length == tag.Length == size
        invariant forall j :: 0 <= j < i ==> desc[j].next == FREE
        invariant availIdx == 0 && usedIdx == 0 && usedCtr == 0 && deviceIdx == 0 && held == {}
        invariant h == History([], 0, [], [], 0, {}, [], [], {}, seq(size, i => -1))
      {
        desc[i] := desc[i].(next := FREE);
      }
      assert Init(State(), h);
    }

    /** QSend's loop: fills free descriptors from the top of the table down, with the last buffer
        first. Falls short exactly when there are fewer free descriptors than buffers. */
    method FillDescriptors(nOut: nat, nIn: nat, addrs: seq<nat>, sizes: seq<nat>, ghost t: nat)
      returns (ok: bool, head: nat, ghost c: Chain)
      requires desc.Length == size && 1 <= size <= MAX_RING
      requires 1 <= nOut + nIn && |addrs| == |sizes| == nOut + nIn
      modifies desc
      ensures ok <==> nOut + nIn <= FreeCount(old(desc[..]))
      ensures ok ==> c == Chain(c.bufs, addrs, sizes, nOut, t) && Written(old(desc[..]), desc[..], c) && head == c.bufs[0]
    {
      var n := nOut + nIn;
      var remain: nat := n;
      var nextbuf := 0;
      var buf: nat := size - 1;
      ghost var bufs: seq<nat> := [];
      ghost var d0, d := desc[..], desc[..];
      ghost var lo := size;
      while buf != 0xffff && remain != 0
        invariant lo == (if buf == 0xffff then 0 else buf + 1) && lo <= size
        invariant desc[..] == d
        invariant PartlyWritten(d0, d, bufs, addrs, sizes, nOut, remain, lo)
        invariant nextbuf == if |bufs| > 0 then bufs[0] else 0
        decreases lo
      {
        lo := buf;
        if desc[buf].next == FREE {
          remain := remain - 1;
          desc[buf] := Desc(addrs[remain], sizes[remain],
                            (if remain < n - 1 then 1 else 0) + (if remain >= nOut then 2 else 0),
                            nextbuf);
          nextbuf := buf;
          FillStep(d0, d, bufs, addrs, sizes, nOut, remain + 1, buf, d[buf := desc[buf]]);
          d := d[buf := desc[buf]];
          bufs := [buf] + bufs;
        } else {
          SkipStep(d0, d, bufs, addrs, sizes, nOut, remain, buf);
        }
        buf := if buf == 0 then 0xffff else buf - 1;
      }
      c := Chain(bufs, addrs, sizes, nOut, t);
      Enough(d0, d, bufs, addrs, sizes, nOut, remain, lo, c);
      ok := remain == 0;
      head := nextbuf;
    }

    /** Sends `nOut` readable then `nIn` writable buffers. With too few free descriptors the code
        panics, which `ok == false` stands for; otherwise exactly one chain is sent. */
    method QSend(nOut: nat, nIn: nat, addrs: seq<nat>, sizes: seq<nat>, t: nat) returns (ok: bool)
      requires Valid()
      requires 1 <= nOut + nIn < U16 && |addrs| == |sizes| == nOut + nIn
      modifies `availIdx, `h, desc, avail, tag
      ensures ok <==> nOut + nIn <= FreeCount(old(desc[..]))
      ensures ok ==> |h.sent| == old(|h.sent|) + 1
      ensures ok ==> var c := h.sent[old(|h.sent|)];
                c == Chain(c.bufs, addrs, sizes, nOut, t) && SendStep(old(State()), old(h), c, State(), h)
      ensures ok ==> Valid()
      ensures ok ==> Carries(Walk(desc[..], avail[old(|h.sent|) % size], size), nOut, addrs, sizes)
    {
      ghost var r, h0 := State(), h;
      ghost var c;
      var nextbuf;
      ok, nextbuf, c := FillDescriptors(nOut, nIn, addrs, sizes, t);
      if !ok {
        return;
      }
      Publish(nextbuf, t, c, r);
      SendInv(r, h0, c, State(), h);
      SendHeld(held, h0, c, h);
      DeviceReads(State(), h, |h0.sent|);
    }

    /** The end of QSend: the tag, the slot in the available ring, then the index. */
    method Publish(nextbuf: nat, t: nat, ghost c: Chain, ghost r: Ring)
      requires Shape(r) && Written(r.desc, desc[..], c) && nextbuf == c.bufs[0] && t == c.tag
      requires State() == r.(desc := desc[..]) && avail != tag && |h.owner| == size
      modifies `availIdx, `h, avail, tag
      ensures SendStep(r, old(h), c, State(), h)
    {
      Announce(nextbuf, t, r);
      h := h.(sent := h.sent + [c], live := h.live + {|h.sent|}, owner := Assign(h.owner, c.bufs, |h.sent|));
    }

    method Announce(head: nat, t: nat, ghost r: Ring)
      requires Shape(r) && head < size && avail != tag && State() == r.(desc := desc[..])
      modifies `availIdx, avail, tag
      ensures State() == r.(desc := desc[..], tag := r.tag[head := t], availIdx := (r.availIdx + 1) % U16,
                            avail := r.avail[Slot(r.availIdx, r.size) := head])
    {
      tag[head] := t;
      var idx := availIdx;
      avail[Slot(idx, size)] := head;
      availIdx := (idx + 1) % U16;
      assert tag[..] == r.tag[head := t];
      assert avail[..] == r.avail[Slot(r.availIdx, r.size) := head];
    }

    /** Device: reads the next slot of the available ring. */
    method DeviceTake() returns (head: nat)
      requires Valid() && h.taken < |h.sent|
      modifies `h, `deviceIdx, `held
      ensures Valid() && TakeStep(old(State()), old(h), State(), h)
      ensures head == h.sent[old(h.taken)].bufs[0]
    {
      ghost var r := State();
      head := PeekAvail();
      held := held + {head};
      h := h.(taken := h.taken + 1);
      NextIndex(old(h.taken));
      deviceIdx := (deviceIdx + 1) % U16;
      TakeInv(r, old(h), State(), h);
      TakeHeld(old(held), old(h), h);
    }

    method PeekAvail() returns (head: nat)
      requires Valid() && h.taken < |h.sent|
      ensures |h.sent[h.taken].bufs| > 0 && head == h.sent[h.taken].bufs[0]
    {
      TakeReads(State(), h);
      head := avail[Slot(deviceIdx, size)];
    }

    /** Device: returns a chain it holds, named by its head. */
    method DeviceComplete(head: nat, len: nat) returns (ghost p: nat)
      requires Valid() && head in held && Unharmed(State(), h)
      modifies `h, `usedIdx, `held, used
      ensures Valid() && CompleteStep(old(State()), old(h), p, len, State(), h)
      ensures old(h).sent[p].bufs[0] == head
    {
      ghost var r := State();
      p :| Held(h, p) && h.sent[p].bufs[0] == head;
      Return(head, len, p);
      CompleteInv(r, old(h), p, len, State(), h);
      CompleteHeld(r, old(h), p, old(held), h);
    }

    /** The device's writes: the element, then the index. */
    method Return(head: nat, len: nat, ghost p: nat)
      requires Shape(State()) && Held(h, p) && head == h.sent[p].bufs[0] && h.taken <= |h.sent|
      modifies `h, `usedIdx, `held, used
      ensures CompleteStep(old(State()), old(h), p, len, State(), h)
      ensures held == old(held) - {head}
    {
      ghost var r := State();
      var slot := Slot(usedIdx, size);
      used[slot] := Used(head, len);
      usedIdx := (usedIdx + 1) % U16;
      held := held - {head};
      h := h.(done := h.done + [p], doneLen := h.doneLen + [len]);
      assert used[..] == r.used[slot := Used(head, len)];
    }

    /** Any number of device steps, in any order. */
    method Device()
      requires Valid() && InOrder(h)
      modifies `h, `usedIdx, `deviceIdx, `held, used
      ensures Valid() && InOrder(h) && DeviceOnly(old(h), h)
    {
      var n: nat := *;
      while n > 0
        invariant Valid() && InOrder(h) && DeviceOnly(old(h), h)
      {
        n := n - 1;
        var taking: bool := *;
        if taking {
          DeviceMayTake();
        } else {
          DeviceMayComplete();
        }
      }
    }

    method DeviceMayTake()
      requires Valid() && InOrder(h)
      modifies `h, `deviceIdx, `held
      ensures Valid() && InOrder(h) && DeviceOnly(old(h), h)
    {
      if deviceIdx != availIdx {
        var _ := DeviceTake();
      }
    }

    method DeviceMayComplete()
      requires Valid() && InOrder(h)
      modifies `h, `usedIdx, `held, used
      ensures Valid() && InOrder(h) && DeviceOnly(old(h), h)
    {
      if held != {} {
        var head :| head in held;
        var len: nat := *;
        ghost var q :| Held(h, q);
        InOrderUnharmed(State(), h, q);
        ghost var p := DeviceComplete(head, len);
      }
    }

    /** The first half of QPoll: claims everything the device has put in the used ring. */
    method QPollBegin() returns (i: nat, end: nat)
      requires Valid()
      modifies `usedCtr, `h
      ensures Valid() && ClaimStep(old(State()), old(h), State(), h)
      ensures i == old(h.polled) % U16 && end == h.polled % U16
    {
      i := usedCtr;
      end := usedIdx;
      usedCtr := end;
      h := h.(polled := |h.done|, pending := h.pending + Span(h.polled, |h.done|));
      ClaimInv(old(State()), old(h), State(), h);
    }

    /** QPoll's inner loop: marks every descriptor of the chain starting at `first` free. */
    method Reclaim(first: nat, ghost c: Chain)
      requires GoodChain(c, desc.Length) && Holds(desc[..], c) && first == c.bufs[0]
      modifies desc
      ensures forall x :: 0 <= x < desc.Length ==>
                desc[x] == if x in c.bufs then old(desc[x]).(next := FREE) else old(desc[x])
    {
      var buf := first;
      ghost var j := 0;
      ghost var d0 := desc[..];
      while true
        invariant 0 <= j < |c.bufs| && buf == c.bufs[j]
        invariant forall x :: 0 <= x < desc.Length ==>
                    desc[x] == if x in c.bufs[..j] then d0[x].(next := FREE) else d0[x]
        decreases |c.bufs| - j
      {
        assert d0[c.bufs[j]] == Link(c, j);
        assert c.bufs[j] !in c.bufs[..j];
        var nextbuf := desc[buf].next;
        desc[buf] := desc[buf].(next := FREE);
        assert c.bufs[..j + 1] == c.bufs[..j] + [buf];
        if desc[buf].flags % 2 == 0 {
          assert c.bufs[..j + 1] == c.bufs;
          break;
        }
        buf := nextbuf;
        j := j + 1;
      }
    }

    /** One iteration of QPoll's loop up to the call of DNotified, whose arguments it returns. */
    method QPollOne(i: nat, ghost k: nat) returns (len: nat, t: nat)
      requires Valid() && k in h.pending && i == k % U16
      modifies desc, `h
      ensures Valid() && HandleStep(old(State()), old(h), k, State(), h)
      ensures len == h.doneLen[k] && t == h.sent[h.done[k]].tag
    {
      ghost var r := State();
      ghost var c := h.sent[h.done[k]];
      assert Unread(h, k) && h.done[k] in h.live;
      SlotWraps(k, size);
      var slot := Slot(i, size);
      var first := used[slot].id;
      len := used[slot].len;
      assert first == c.bufs[0] && len == h.doneLen[k];

      Reclaim(first, c);
      t := tag[first];
      h := h.(pending := h.pending - {k}, live := h.live - {h.done[k]},
              reported := h.reported + [k], log := h.log + [Report(len, t)],
              owner := Assign(h.owner, c.bufs, -1));
      assert HandleStep(r, old(h), k, State(), h);
      HandleInv(r, old(h), k, State(), h);
      HandleHeld(held, old(h), k, h);
    }

    method QPollStart() returns (i: nat, end: nat)
      requires Valid() && h.pending == {}
      modifies `usedCtr, `h
      ensures Valid() && Progress(old(h), h, old(h.polled), []) && h.polled < old(h.polled) + U16
      ensures i == old(h.polled) % U16 && end == h.polled % U16
    {
      i, end := QPollBegin();
      ClaimedFits(State(), h, old(h.polled));
    }

    method DeviceFolded()
      requires Sealed() && InOrder(h)
      modifies `h, `usedIdx, `deviceIdx, `held, used
      ensures Sealed() && DeviceOnly(old(h), h)
      ensures |h.doneLen| == |h.done| && forall j :: 0 <= j < |h.done| ==> h.done[j] < |h.sent|
    {
      assert Unfold(Seal);
      Device();
    }

    method QPollOneFolded(i: nat, ghost k: nat) returns (len: nat, t: nat)
      requires Sealed() && k in h.pending && i == k % U16 && k < |h.done| == |h.doneLen| && h.done[k] < |h.sent|
      modifies desc, `h
      ensures Sealed()
      ensures h == old(h).(pending := old(h).pending - {k}, live := h.live, owner := h.owner, reported := h.reported, log := h.log)
      ensures len == h.doneLen[k] && t == h.sent[h.done[k]].tag
    {
      assert Unfold(Seal);
      len, t := QPollOne(i, k);
    }

    /** The device runs on, then QPoll handles its next element. */
    method QPollNext(i: nat, ghost k: nat, ghost h0: History, calls: seq<Report>)
      returns (calls': seq<Report>, i': nat)
      requires Sealed() && Progress(h0, h, k, calls) && k < h.polled && i == k % U16
      modifies `h, `usedIdx, `deviceIdx, `held, desc, used
      ensures Sealed() && Progress(h0, h, k + 1, calls') && i' == (k + 1) % U16 && h.polled == old(h.polled)
    {
      ghost var h1 := h;
      DeviceFolded();
      ghost var h2 := h;
      var len, t := QPollOneFolded(i, k);
      calls' := calls + [Report(len, t)];
      ProgressStep(h0, h1, h2, h, k, calls, Report(len, t));
      NextIndex(k);
      i' := (i + 1) % U16;
    }

    /** QPoll when it is not nested, with the device running on meanwhile. `calls` are the calls of
        DNotified, in order: one for each element that was in the used ring at the start. */
    method QPoll() returns (calls: seq<Report>)
      requires Valid() && h.pending == {}
      modifies `usedCtr, `h, `usedIdx, `deviceIdx, `held, desc, used
      ensures Valid() && h.pending == {}
      ensures h.sent == old(h.sent) && old(h.done) <= h.done && old(h.doneLen) <= h.doneLen
      ensures h.polled == old(|h.done|)
      ensures |calls| == h.polled - old(h.polled)
      ensures forall n :: 0 <= n < |calls| ==>
                calls[n] == Report(h.doneLen[old(h.polled) + n], h.sent[h.done[old(h.polled) + n]].tag)
    {
      ghost var h0 := h;
      assert Unfold(Seal);
      var i, end := QPollStart();
      calls := QPollLoop(i, end, h0);
      ProgressDone(h0, h, calls);
    }

    method QPollLoop(i0: nat, end: nat, ghost h0: History) returns (calls: seq<Report>)
      requires Sealed() && Progress(h0, h, h0.polled, []) && h.polled < h0.polled + U16
      requires i0 == h0.polled % U16 && end == h.polled % U16
      modifies `h, `usedIdx, `deviceIdx, `held, desc, used
      ensures Sealed() && Progress(h0, h, h.polled, calls)
    {
      var i := i0;
      calls := [];
      ghost var k: nat := h0.polled;
      ghost var polled := h.polled;
      while i != end
        invariant Sealed() && Progress(h0, h, k, calls)
        invariant k <= h.polled == polled < k + U16 && i == k % U16
        decreases polled - k
      {
        calls, i := QPollNext(i, k, h0, calls);
        k := k + 1;
      }
      EndReached(k, h.polled);
    }
  }

  /** QPoll started at `h0`, is now at `h`, and has handled used positions below `k`. */
  ghost predicate Progress(h0: History, h: History, k: nat, calls: seq<Report>) {
    && h0.polled <= k <= h.polled == |h0.done| <= |h.done|
    && (forall j: nat :: j in h.pending <==> k <= j < h.polled)
    && h.sent == h0.sent && h0.done <= h.done && h0.doneLen <= h.doneLen
    && |h.doneLen| == |h.done| && (forall j :: 0 <= j < |h.done| ==> h.done[j] < |h.sent|)
    && |calls| == k - h0.polled
    && (forall n :: 0 <= n < |calls| ==>
          calls[n] == Report(h.doneLen[h0.polled + n], h.sent[h.done[h0.polled + n]].tag))
  }

  lemma EndReached(k: nat, polled: nat)
    requires k <= polled < k + U16 && k % U16 == polled % U16
    ensures k == polled
  {}

  lemma ProgressDone(h0: History, h: History, calls: seq<Report>)
    requires Progress(h0, h, h.polled, calls)
    ensures h.pending == {} && h.polled == |h0.done|
    ensures h.sent == h0.sent && h0.done <= h.done && h0.doneLen <= h.doneLen
    ensures |h.doneLen| == |h.done| && h0.polled <= h.polled <= |h.done| && |calls| == h.polled - h0.polled
    ensures forall n :: 0 <= n < |calls| ==>
              h.done[h0.polled + n] < |h.sent| &&
              calls[n] == Report(h.doneLen[h0.polled + n], h.sent[h.done[h0.polled + n]].tag)
  {
    assert forall j: nat :: j !in h.pending;
  }

  lemma ProgressStep(h0: History, h1: History, h2: History, h3: History, k: nat, calls: seq<Report>, call: Report)
    requires Progress(h0, h1, k, calls) && k < h1.polled
    requires DeviceOnly(h1, h2) && |h2.doneLen| == |h2.done|
    requires forall j :: 0 <= j < |h2.done| ==> h2.done[j] < |h2.sent|
    requires h3 == h2.(pending := h2.pending - {k}, live := h3.live, owner := h3.owner,
                       reported := h3.reported, log := h3.log)
    requires call == Report(h2.doneLen[k], h2.sent[h2.done[k]].tag)
    ensures Progress(h0, h3, k + 1, calls + [call])
  {}

  lemma HandleHeld(held: set<nat>, h: History, k: nat, h': History)
    requires Bookkeeping(h) && HeldHeads(held, h) && k in h.pending
    requires h' == h.(live := h.live - {h.done[k]}, pending := h'.pending, reported := h'.reported,
                      log := h'.log, owner := h'.owner)
    ensures HeldHeads(held, h')
  {
    assert h.done[k] in h.done;
    assert forall p: nat :: Held(h, p) <==> Held(h', p);
  }

  /** What QPoll claims is at most a ring's worth, so its 16-bit loop counter cannot run past `end`. */
  lemma ClaimedFits(r: Ring, h: History, k: nat)
    requires Inv(r, h) && h.polled == |h.done| && k <= h.polled
    requires forall j: nat :: j in h.pending <==> k <= j < h.polled
    ensures h.polled - k <= r.size < U16
  {
    assert forall j :: k <= j < |h.done| ==> Unread(h, j);
    UsedFits(r, h, k, []);
  }

  /** QSend's loop has filled descriptors `bufs` with the last buffers of the request and has looked
      at every descriptor from `lo` up. */
  ghost predicate PartlyWritten(d0: seq<Desc>, d: seq<Desc>, bufs: seq<nat>, addrs: seq<nat>, sizes: seq<nat>,
                                nOut: nat, remain: nat, lo: nat)
  {
    && |d| == |d0| && lo <= |d0|
    && |addrs| == |sizes| == remain + |bufs|
    && (forall j :: 0 <= j < |bufs| ==> lo <= bufs[j] < |d0| && d0[bufs[j]].next == FREE)
    && (forall i, j :: 0 <= i < j < |bufs| ==> bufs[i] < bufs[j])
    && (forall j {:trigger d[bufs[j]]} :: 0 <= j < |bufs| ==>
          d[bufs[j]] == Desc(addrs[remain + j], sizes[remain + j], Flags(remain + j, |addrs|, nOut),
                             if j + 1 < |bufs| then bufs[j + 1] else 0))
    && (forall i {:trigger i in bufs} :: lo <= i < |d0| && d0[i].next == FREE ==> i in bufs)
    && (forall i :: 0 <= i < |d0| && i !in bufs ==> d[i] == d0[i])
  }

  lemma FillStep(d0: seq<Desc>, d: seq<Desc>, bufs: seq<nat>, addrs: seq<nat>, sizes: seq<nat>,
                 nOut: nat, remain: nat, buf: nat, d': seq<Desc>)
    requires PartlyWritten(d0, d, bufs, addrs, sizes, nOut, remain, buf + 1) && remain > 0
    requires buf < |d| && d[buf].next == FREE
    requires d' == d[buf := Desc(addrs[remain - 1], sizes[remain - 1], Flags(remain - 1, |addrs|, nOut),
                                 if |bufs| > 0 then bufs[0] else 0)]
    ensures PartlyWritten(d0, d', [buf] + bufs, addrs, sizes, nOut, remain - 1, buf)
  {
    var b := [buf] + bufs;
    assert forall j :: 1 <= j < |b| ==> b[j] == bufs[j - 1];
    FillLinks(d0, d, bufs, addrs, sizes, nOut, remain, buf, d');
    forall i | 0 <= i < |d0| && i !in b ensures d'[i] == d0[i] { assert i != b[0]; }
    forall i | buf <= i < |d0| && d0[i].next == FREE ensures i in b {
      if i == buf { assert b[0] == i; }
    }
  }

  lemma FillLinks(d0: seq<Desc>, d: seq<Desc>, bufs: seq<nat>, addrs: seq<nat>, sizes: seq<nat>,
                  nOut: nat, remain: nat, buf: nat, d': seq<Desc>)
    requires PartlyWritten(d0, d, bufs, addrs, sizes, nOut, remain, buf + 1) && remain > 0 && buf < |d|
    requires d' == d[buf := Desc(addrs[remain - 1], sizes[remain - 1], Flags(remain - 1, |addrs|, nOut),
                                 if |bufs| > 0 then bufs[0] else 0)]
    ensures var b := [buf] + bufs;
            forall j {:trigger d'[b[j]]} :: 0 <= j < |b| ==>
              d'[b[j]] == Desc(addrs[remain - 1 + j], sizes[remain - 1 + j], Flags(remain - 1 + j, |addrs|, nOut),
                               if j + 1 < |b| then b[j + 1] else 0)
  {
    var b := [buf] + bufs;
    forall j | 0 <= j < |b|
      ensures d'[b[j]] == Desc(addrs[remain - 1 + j], sizes[remain - 1 + j], Flags(remain - 1 + j, |addrs|, nOut),
                               if j + 1 < |b| then b[j + 1] else 0)
    {
      if j > 0 { assert d'[b[j]] == d[bufs[j - 1]]; }
    }
  }

  lemma SkipStep(d0: seq<Desc>, d: seq<Desc>, bufs: seq<nat>, addrs: seq<nat>, sizes: seq<nat>,
                 nOut: nat, remain: nat, buf: nat)
    requires PartlyWritten(d0, d, bufs, addrs, sizes, nOut, remain, buf + 1)
    requires buf < |d| && d[buf].next != FREE
    ensures PartlyWritten(d0, d, bufs, addrs, sizes, nOut, remain, buf)
  {
    assert buf !in bufs;
  }

  lemma Enough(d0: seq<Desc>, d: seq<Desc>, bufs: seq<nat>, addrs: seq<nat>, sizes: seq<nat>,
               nOut: nat, remain: nat, lo: nat, c: Chain)
    requires PartlyWritten(d0, d, bufs, addrs, sizes, nOut, remain, lo)
    requires (remain == 0 || lo == 0) && 1 <= |addrs| && nOut <= |addrs|
    requires c.bufs == bufs && c.addrs == addrs && c.sizes == sizes && c.nOut == nOut
    ensures remain == 0 <==> |addrs| <= FreeCount(d0)
    ensures remain == 0 ==> Written(d0, d, c)
  {
    DistinctCount(bufs, FreeBelow(d0, |d0|));
  }
}
