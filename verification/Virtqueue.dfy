/** The driver side of a split virtqueue (virtio/virtqueue.c).

    `Ring` is the memory shared with the device plus the driver's private words; `History` is ghost:
    it numbers every chain ever sent and every element ever put in the used ring, without wrapping.
    Steps are relations on the two; class `Virtq` in VirtqDriver.dfy performs them in place. */
module Virtqueue {
  import opened Words

  const FREE: nat := 0xffff
  const MAX_RING: nat := 256

  /** One descriptor; `flags` is VIRTQ_DESC_F_NEXT (1) plus VIRTQ_DESC_F_WRITE (2). */
  datatype Desc = Desc(addr: nat, len: nat, flags: nat, next: nat)
  datatype Used = Used(id: nat, len: nat)
  datatype Ring = Ring(size: nat, desc: seq<Desc>, availIdx: nat, avail: seq<nat>,
                       usedIdx: nat, used: seq<Used>, usedCtr: nat, tag: seq<nat>)

  /** What one QSend asked for, and the descriptors (in walking order) that carry it. */
  datatype Chain = Chain(bufs: seq<nat>, addrs: seq<nat>, sizes: seq<nat>, nOut: nat, tag: nat)
  /** One call of DNotified. */
  datatype Report = Report(len: nat, tag: nat)

  /** `sent[p]` went in the available ring at position p; the device has taken positions below
      `taken`. Used-ring position k completed chain `done[k]` with `doneLen[k]` bytes. QPoll has
      claimed used positions below `polled`; those in `pending` it has still to handle, the rest
      are in `reported`, in the order DNotified was called for them. `live` holds the chains whose
      descriptors are not yet reclaimed, and `owner[i]` the live chain using descriptor i, or -1. */
  datatype History = History(sent: seq<Chain>, taken: nat, done: seq<nat>, doneLen: seq<nat>,
                             polled: nat, pending: set<nat>, reported: seq<nat>, log: seq<Report>,
                             live: set<nat>, owner: seq<int>)

  function Flags(j: nat, n: nat, nOut: nat): (f: nat)
    ensures f % 2 == 0 <==> j + 1 >= n
    ensures f / 2 == 0 <==> j < nOut
  {
    (if j + 1 < n then 1 else 0) + (if j >= nOut then 2 else 0)
  }

  // ---------------------------------------------------------------- invariant

  /** The sizes assumed for a ring: powers of two up to MAX_RING. */
  ghost predicate RingSize(size: nat) {
    1 <= size <= MAX_RING && exists k: nat :: k <= 8 && size == Pow2(k)
  }

  /** The slot of index or position `x`, as the code computes it. */
  function Slot(x: nat, size: nat): (s: nat)
    requires RingSize(size)
    ensures s < size
  {
    SlotIsMod(x, size);
    And(x, size - 1)
  }

  lemma SlotIsMod(x: nat, size: nat)
    requires RingSize(size)
    ensures And(x, size - 1) == x % size
  {
    var k: nat :| k <= 8 && size == Pow2(k);
    AndMask(x, k);
  }

  /** A 16-bit index addresses the same slot as the unwrapped position it stands for. */
  lemma SlotWraps(x: nat, size: nat)
    requires RingSize(size)
    ensures Slot(x % U16, size) == Slot(x, size)
  {
    var k: nat :| k <= 8 && size == Pow2(k);
    Pow2Add(k, 16 - k);
    Pow2Of16();
    ModMod(x, size, Pow2(16 - k));
    SlotIsMod(x % U16, size);
    SlotIsMod(x, size);
  }

  /** Positions less than a ring apart have different slots. */
  lemma SlotApart(a: nat, b: nat, size: nat)
    requires RingSize(size) && a <= b < a + size && Slot(a, size) == Slot(b, size)
    ensures a == b
  {
    SlotIsMod(a, size);
    SlotIsMod(b, size);
    ModApart(a, b, size);
  }

  lemma Pow2Of16()
    ensures Pow2(16) == U16
  {
    Pow2Add(8, 8);
    assert Pow2(8) == 256;
  }

  ghost predicate Shape(r: Ring) {
    && RingSize(r.size)
    && |r.desc| == |r.avail| == |r.used| == |r.tag| == r.size
    && r.availIdx < U16 && r.usedIdx < U16 && r.usedCtr < U16
  }

  ghost predicate GoodChain(c: Chain, size: nat) {
    && 1 <= |c.bufs| && |c.addrs| == |c.sizes| == |c.bufs| && c.nOut <= |c.bufs|
    && (forall j :: 0 <= j < |c.bufs| ==> c.bufs[j] < size)
    && (forall i, j :: 0 <= i < j < |c.bufs| ==> c.bufs[i] < c.bufs[j])
  }

  /** The descriptor that carries buffer j of chain `c`; the last one's `next` is 0. */
  function Link(c: Chain, j: nat): Desc
    requires j < |c.bufs| && |c.addrs| == |c.sizes| == |c.bufs|
  {
    Desc(c.addrs[j], c.sizes[j], Flags(j, |c.bufs|, c.nOut), if j + 1 < |c.bufs| then c.bufs[j + 1] else 0)
  }

  /** The descriptor table holds chain `c`, linked in order. */
  ghost predicate Holds(desc: seq<Desc>, c: Chain)
    requires GoodChain(c, |desc|)
  {
    forall j {:trigger Link(c, j)} {:trigger desc[c.bufs[j]]} :: 0 <= j < |c.bufs| ==> desc[c.bufs[j]] == Link(c, j)
  }

  ghost predicate Descriptors(r: Ring, h: History)
    requires Shape(r)
  {
    && |h.owner| == r.size
    && (forall p {:trigger p in h.live} :: p in h.live ==> p < |h.sent| && GoodChain(h.sent[p], r.size) && Holds(r.desc, h.sent[p]))
    && (forall p, j {:trigger h.owner[h.sent[p].bufs[j]]} ::
          p in h.live && 0 <= j < |h.sent[p].bufs| ==> h.owner[h.sent[p].bufs[j]] == p)
    && (forall i :: 0 <= i < r.size && h.owner[i] != -1 ==>
          0 <= h.owner[i] && h.owner[i] in h.live && i in h.sent[h.owner[i]].bufs)
    && (forall i :: 0 <= i < r.size ==> (h.owner[i] == -1 <==> r.desc[i].next == FREE))
  }

  ghost predicate Unread(h: History, k: nat) {
    k in h.pending || h.polled <= k < |h.done|
  }

  ghost predicate Bookkeeping(h: History) {
    && h.taken <= |h.sent|
    && |h.doneLen| == |h.done|
    && h.polled <= |h.done|
    && (forall k :: k in h.pending ==> k < h.polled)
    && (forall p :: p in h.live ==> p < |h.sent|)
    && (forall p :: h.taken <= p < |h.sent| ==> p in h.live)
    && (forall k :: 0 <= k < |h.done| ==> h.done[k] < h.taken)
    && (forall i, j :: 0 <= i < j < |h.done| ==> h.done[i] != h.done[j])
    && (forall k :: 0 <= k < |h.done| ==> (h.done[k] in h.live <==> Unread(h, k)))
    && (forall p: nat {:trigger p in h.done} :: p < h.taken && p !in h.live ==> p in h.done)
  }

  ghost predicate Reports(h: History) {
    && (forall i, j :: 0 <= i < j < |h.reported| ==> h.reported[i] != h.reported[j])
    && (forall k: nat {:trigger k in h.reported} :: k in h.reported <==> k < h.polled && k !in h.pending)
    && |h.log| == |h.reported|
    && |h.doneLen| == |h.done|
    && h.polled <= |h.done|
    && (forall k :: 0 <= k < |h.done| ==> h.done[k] < |h.sent|)
    && (forall i :: 0 <= i < |h.log| ==>
          var k := h.reported[i];
          k < h.polled && h.log[i] == Report(h.doneLen[k], h.sent[h.done[k]].tag))
  }

  /** The free-running 16-bit indices are the unbounded counts modulo 2^16. */
  ghost predicate Indices(r: Ring, h: History) {
    r.availIdx == |h.sent| % U16 && r.usedIdx == |h.done| % U16 && r.usedCtr == h.polled % U16
  }

  ghost predicate AvailRing(r: Ring, h: History)
    requires Shape(r)
  {
    forall p :: h.taken <= p < |h.sent| ==>
      |h.sent[p].bufs| > 0 && r.avail[Slot(p, r.size)] == h.sent[p].bufs[0]
  }

  /** Every unread used element is still in its slot. */
  ghost predicate UsedRing(r: Ring, h: History)
    requires Shape(r) && Bookkeeping(h) && Descriptors(r, h)
  {
    forall k :: 0 <= k < |h.done| && Unread(h, k) ==>
      |h.done| <= k + r.size && r.used[Slot(k, r.size)] == Used(h.sent[h.done[k]].bufs[0], h.doneLen[k])
  }

  ghost predicate Tags(r: Ring, h: History)
    requires Shape(r) && Descriptors(r, h)
  {
    forall p {:trigger p in h.live} :: p in h.live ==> r.tag[h.sent[p].bufs[0]] == h.sent[p].tag
  }

  ghost predicate Rings(r: Ring, h: History)
    requires Shape(r) && Bookkeeping(h) && Descriptors(r, h)
  {
    Indices(r, h) && AvailRing(r, h) && UsedRing(r, h) && Tags(r, h)
  }

  ghost predicate Inv(r: Ring, h: History) {
    Shape(r) && Bookkeeping(h) && Reports(h) && Descriptors(r, h) && Rings(r, h)
  }

  // -------------------------------------------------------------------- steps

  ghost predicate Init(r: Ring, h: History) {
    && Shape(r)
    && (forall i :: 0 <= i < r.size ==> r.desc[i].next == FREE)
    && r.availIdx == 0 && r.usedIdx == 0 && r.usedCtr == 0
    && h == History([], 0, [], [], 0, {}, [], [], {}, seq(r.size, i => -1))
  }

  /** The new descriptor table after `c` was written into free descriptors of the old one. */
  ghost predicate Written(desc: seq<Desc>, desc': seq<Desc>, c: Chain) {
    && |desc'| == |desc|
    && GoodChain(c, |desc|)
    && (forall j :: 0 <= j < |c.bufs| ==> desc[c.bufs[j]].next == FREE)
    && (forall i {:trigger i in c.bufs} :: c.bufs[0] <= i < |desc| && desc[i].next == FREE ==> i in c.bufs)
    && Holds(desc', c)
    && (forall i :: 0 <= i < |desc| && i !in c.bufs ==> desc'[i] == desc[i])
  }

  ghost function Assign(owner: seq<int>, bufs: seq<nat>, p: int): (o: seq<int>)
    ensures |o| == |owner|
    ensures forall i :: 0 <= i < |o| ==> o[i] == if i in bufs then p else owner[i]
  {
    seq(|owner|, i requires 0 <= i < |owner| => if i in bufs then p else owner[i])
  }

  /** QSend: `c` takes the highest free descriptors, and its head is published in the next slot of
      the available ring. */
  ghost predicate SendStep(r: Ring, h: History, c: Chain, r': Ring, h': History)
    requires Shape(r)
  {
    && Written(r.desc, r'.desc, c)
    && r' == r.(desc := r'.desc,
                tag := r.tag[c.bufs[0] := c.tag],
                avail := r.avail[Slot(r.availIdx, r.size) := c.bufs[0]],
                availIdx := (r.availIdx + 1) % U16)
    && |h.owner| == r.size
    && h' == h.(sent := h.sent + [c], live := h.live + {|h.sent|},
                owner := Assign(h.owner, c.bufs, |h.sent|))
  }

  /** The device reads the next available slot. */
  ghost predicate TakeStep(r: Ring, h: History, r': Ring, h': History) {
    h.taken < |h.sent| && r' == r && h' == h.(taken := h.taken + 1)
  }

  /** The device returns chain `p`, which it holds, with `len` bytes written. */
  ghost predicate CompleteStep(r: Ring, h: History, p: nat, len: nat, r': Ring, h': History)
    requires Shape(r)
  {
    && p < h.taken <= |h.sent| && p in h.live && p !in h.done && |h.sent[p].bufs| > 0
    && r' == r.(used := r.used[Slot(r.usedIdx, r.size) := Used(h.sent[p].bufs[0], len)],
                usedIdx := (r.usedIdx + 1) % U16)
    && h' == h.(done := h.done + [p], doneLen := h.doneLen + [len])
  }

  /** QPoll reads the used index and advances `used_ctr` to it. */
  ghost predicate ClaimStep(r: Ring, h: History, r': Ring, h': History) {
    && r' == r.(usedCtr := r.usedIdx)
    && h' == h.(polled := |h.done|, pending := h.pending + Span(h.polled, |h.done|))
  }

  /** One iteration of QPoll's loop: reclaim the chain at used position `k`, then call DNotified
      with the length and the tag found in the tables. */
  ghost predicate HandleStep(r: Ring, h: History, k: nat, r': Ring, h': History)
    requires Shape(r)
  {
    && k in h.pending && k < |h.done| && h.done[k] < |h.sent| && |h.owner| == r.size
    && var u := r.used[Slot(k, r.size)];
       var c := h.sent[h.done[k]];
       && u.id < r.size
       && |r'.desc| == r.size
       && (forall i :: 0 <= i < r.size ==>
             r'.desc[i] == if i in c.bufs then r.desc[i].(next := FREE) else r.desc[i])
       && r' == r.(desc := r'.desc)
       && h' == h.(pending := h.pending - {k}, live := h.live - {h.done[k]},
                   reported := h.reported + [k], log := h.log + [Report(u.len, r.tag[u.id])],
                   owner := Assign(h.owner, c.bufs, -1))
  }

  // -------------------------------------------------------- steps keep the invariant

  lemma InitInv(r: Ring, h: History)
    requires Init(r, h)
    ensures Inv(r, h)
  {}

  /** Used-ring positions that are still unread all name live chains, so there is room for them. */
  lemma {:induction false} UsedFits(r: Ring, h: History, a: nat, extra: seq<nat>)
    requires Shape(r) && Bookkeeping(h) && Descriptors(r, h)
    requires a <= |h.done| && forall k :: a <= k < |h.done| ==> Unread(h, k)
    requires |extra| <= 1 && forall p :: p in extra ==> p in h.live && p !in h.done
    ensures |h.done| - a + |extra| <= r.size
  {
    var ps := h.done[a..] + extra;
    assert forall i :: 0 <= i < |ps| ==> ps[i] in h.live by {
      assert forall i :: 0 <= i < |h.done| - a ==> ps[i] == h.done[a + i];
    }
    LiveFits(r, h, ps);
  }

  lemma {:induction false} LiveFits(r: Ring, h: History, ps: seq<nat>)
    requires Shape(r) && Bookkeeping(h) && Descriptors(r, h)
    requires forall i :: 0 <= i < |ps| ==> ps[i] in h.live
    requires forall i, j :: 0 <= i < j < |ps| ==> ps[i] != ps[j]
    ensures |ps| <= r.size
  {
    var heads := seq(|ps|, i requires 0 <= i < |ps| => h.sent[ps[i]].bufs[0]);
    forall i, j | 0 <= i < j < |heads| ensures heads[i] != heads[j] {
      assert h.owner[heads[i]] == ps[i] && h.owner[heads[j]] == ps[j];
    }
    Pigeonhole(heads, r.size);
  }

  lemma NextIndex(x: nat)
    ensures (x % U16 + 1) % U16 == (x + 1) % U16
  {}

  lemma SendInv(r: Ring, h: History, c: Chain, r': Ring, h': History)
    requires Inv(r, h) && SendStep(r, h, c, r', h')
    ensures Inv(r', h')
  {
    SendBookkeeping(h, c, h');
    SendDescriptors(r, h, c, r', h');
    SendRings(r, h, c, r', h');
  }

  lemma SendRings(r: Ring, h: History, c: Chain, r': Ring, h': History)
    requires Inv(r, h) && SendStep(r, h, c, r', h')
    requires Shape(r') && Bookkeeping(h') && Descriptors(r', h')
    ensures Rings(r', h')
  {
    SendFits(r', h');
    SendAvail(r, h, c, r', h');
    SendUsed(r, h, c, r', h');
    SendTags(r, h, c, r', h');
    SendIndices(r, h, c, r', h');
  }

  lemma SendIndices(r: Ring, h: History, c: Chain, r': Ring, h': History)
    requires Indices(r, h) && Shape(r) && SendStep(r, h, c, r', h')
    ensures Indices(r', h')
  {
    NextIndex(|h.sent|);
  }

  lemma SendBookkeeping(h: History, c: Chain, h': History)
    requires Bookkeeping(h) && Reports(h)
    requires h' == h.(sent := h.sent + [c], live := h.live + {|h.sent|}, owner := h'.owner)
    ensures Bookkeeping(h') && Reports(h')
  {
    assert forall p :: 0 <= p < |h.sent| ==> h'.sent[p] == h.sent[p];
    assert forall k :: 0 <= k < |h.done| ==> (Unread(h', k) <==> Unread(h, k));
  }

  lemma SendDescriptors(r: Ring, h: History, c: Chain, r': Ring, h': History)
    requires Shape(r) && Bookkeeping(h) && Descriptors(r, h) && SendStep(r, h, c, r', h')
    ensures Shape(r') && Descriptors(r', h')
  {
    SendOwners(r, h, c, r', h');
    SendChains(r, h, c, r', h');
  }

  lemma SendOwners(r: Ring, h: History, c: Chain, r': Ring, h': History)
    requires Shape(r) && Bookkeeping(h) && Descriptors(r, h) && SendStep(r, h, c, r', h')
    ensures forall i :: 0 <= i < r.size && h'.owner[i] != -1 ==>
              0 <= h'.owner[i] < |h'.sent| && h'.owner[i] in h'.live && i in h'.sent[h'.owner[i]].bufs
    ensures forall i :: 0 <= i < r.size ==> (h'.owner[i] == -1 <==> r'.desc[i].next == FREE)
  {
    forall i | 0 <= i < r.size
      ensures h'.owner[i] == -1 <==> r'.desc[i].next == FREE
      ensures h'.owner[i] != -1 ==>
                0 <= h'.owner[i] < |h'.sent| && h'.owner[i] in h'.live && i in h'.sent[h'.owner[i]].bufs
    {
      if i in c.bufs {
        var j :| 0 <= j < |c.bufs| && c.bufs[j] == i;
        assert h'.owner[i] == |h.sent| && h'.sent[|h.sent|] == c;
        assert r'.desc[c.bufs[j]] == Link(c, j);
      } else {
        assert h'.owner[i] == h.owner[i];
      }
    }
  }

  lemma SendChains(r: Ring, h: History, c: Chain, r': Ring, h': History)
    requires Shape(r) && Bookkeeping(h) && Descriptors(r, h) && SendStep(r, h, c, r', h')
    ensures forall p :: p in h'.live ==> GoodChain(h'.sent[p], r.size) && Holds(r'.desc, h'.sent[p])
    ensures forall p, j :: p in h'.live && 0 <= j < |h'.sent[p].bufs| ==> h'.owner[h'.sent[p].bufs[j]] == p
  {
    forall p | p in h'.live
      ensures GoodChain(h'.sent[p], r.size) && Holds(r'.desc, h'.sent[p])
      ensures forall j :: 0 <= j < |h'.sent[p].bufs| ==> h'.owner[h'.sent[p].bufs[j]] == p
    {
      if p != |h.sent| { SendKeepsChain(r, h, c, r', h', p); }
    }
  }

  lemma SendKeepsChain(r: Ring, h: History, c: Chain, r': Ring, h': History, p: nat)
    requires Shape(r) && Descriptors(r, h) && SendStep(r, h, c, r', h') && p in h.live
    ensures Holds(r'.desc, h.sent[p])
    ensures forall j :: 0 <= j < |h.sent[p].bufs| ==> h'.owner[h.sent[p].bufs[j]] == p
  {
    forall j | 0 <= j < |h.sent[p].bufs| ensures h.sent[p].bufs[j] !in c.bufs {
      assert h.owner[h.sent[p].bufs[j]] == p;
    }
  }

  /** The chains waiting in the available ring never outnumber its slots. */
  lemma SendFits(r: Ring, h: History)
    requires Shape(r) && Bookkeeping(h) && Descriptors(r, h)
    ensures |h.sent| - h.taken <= r.size
  {
    LiveFits(r, h, seq(|h.sent| - h.taken, i requires 0 <= i => h.taken + i));
  }

  lemma SendAvail(r: Ring, h: History, c: Chain, r': Ring, h': History)
    requires Shape(r) && Shape(r') && AvailRing(r, h) && SendStep(r, h, c, r', h')
    requires r.availIdx == |h.sent| % U16 && |h'.sent| - h'.taken <= r.size
    ensures AvailRing(r', h')
  {
    var n := |h.sent|;
    SlotWraps(n, r.size);
    forall p | h'.taken <= p < |h'.sent|
      ensures |h'.sent[p].bufs| > 0 && r'.avail[Slot(p, r.size)] == h'.sent[p].bufs[0]
    {
      if p != n && Slot(p, r.size) == Slot(n, r.size) { SlotApart(p, n, r.size); }
    }
  }

  lemma SendTags(r: Ring, h: History, c: Chain, r': Ring, h': History)
    requires Shape(r) && Descriptors(r, h) && Tags(r, h) && SendStep(r, h, c, r', h')
    requires Shape(r') && Descriptors(r', h')
    ensures Tags(r', h')
  {
    forall p | p in h'.live ensures r'.tag[h'.sent[p].bufs[0]] == h'.sent[p].tag {
      assert h'.owner[h'.sent[p].bufs[0]] == p;
      assert h'.owner[c.bufs[0]] == |h.sent|;
    }
  }

  lemma SendUsed(r: Ring, h: History, c: Chain, r': Ring, h': History)
    requires Inv(r, h) && SendStep(r, h, c, r', h')
    requires Shape(r') && Bookkeeping(h') && Descriptors(r', h')
    ensures UsedRing(r', h')
  {
    forall k | 0 <= k < |h'.done| && Unread(h', k)
      ensures |h'.done| <= k + r.size
      ensures r'.used[Slot(k, r.size)] == Used(h'.sent[h'.done[k]].bufs[0], h'.doneLen[k])
    {
      assert Unread(h, k) && h'.sent[h'.done[k]] == h.sent[h.done[k]];
    }
  }

  lemma TakeInv(r: Ring, h: History, r': Ring, h': History)
    requires Inv(r, h) && TakeStep(r, h, r', h')
    ensures Inv(r', h')
  {}

  /** No used-ring slot that a running QPoll has claimed is about to be overwritten. */
  ghost predicate Unharmed(r: Ring, h: History) {
    forall k :: k in h.pending ==> |h.done| < k + r.size
  }

  lemma CompleteInv(r: Ring, h: History, p: nat, len: nat, r': Ring, h': History)
    requires Inv(r, h) && CompleteStep(r, h, p, len, r', h') && Unharmed(r, h)
    ensures Inv(r', h')
  {
    CompleteBookkeeping(h, p, len, h');
    CompleteUsed(r, h, p, len, r', h');
    NextIndex(|h.done|);
  }

  lemma CompleteBookkeeping(h: History, p: nat, len: nat, h': History)
    requires Bookkeeping(h) && Reports(h) && p < h.taken && p in h.live && p !in h.done
    requires h' == h.(done := h.done + [p], doneLen := h.doneLen + [len])
    ensures Bookkeeping(h') && Reports(h')
  {
    assert forall k :: 0 <= k < |h.done| ==> (Unread(h', k) <==> Unread(h, k));
    assert Unread(h', |h.done|);
    assert forall q :: q in h.done ==> q in h'.done;
  }

  lemma CompleteUsed(r: Ring, h: History, p: nat, len: nat, r': Ring, h': History)
    requires Inv(r, h) && CompleteStep(r, h, p, len, r', h') && Unharmed(r, h)
    requires Bookkeeping(h')
    ensures Shape(r') && Descriptors(r', h') && UsedRing(r', h')
  {
    var n := |h.done|;
    SlotWraps(n, r.size);
    UsedFits(r, h, h.polled, [p]);
    forall k | 0 <= k < |h'.done| && Unread(h', k)
      ensures |h'.done| <= k + r.size
      ensures r'.used[Slot(k, r.size)] == Used(h'.sent[h'.done[k]].bufs[0], h'.doneLen[k])
    {
      if k != n {
        assert Unread(h, k);
        if Slot(k, r.size) == Slot(n, r.size) { SlotApart(k, n, r.size); }
      }
    }
  }

  lemma ClaimInv(r: Ring, h: History, r': Ring, h': History)
    requires Inv(r, h) && ClaimStep(r, h, r', h')
    ensures Inv(r', h')
  {
    assert forall k :: 0 <= k < |h.done| ==> (Unread(h', k) <==> Unread(h, k));
  }

  lemma HandleInv(r: Ring, h: History, k: nat, r': Ring, h': History)
    requires Inv(r, h) && HandleStep(r, h, k, r', h')
    ensures Inv(r', h')
  {
    assert Unread(h, k) && h.done[k] in h.live;
    HandleBookkeeping(h, k, h');
    HandleDescriptors(r, h, k, r', h');
    HandleReports(h, k, Report(h.doneLen[k], h.sent[h.done[k]].tag), h');
    HandleRings(r, h, k, r', h');
  }

  lemma HandleBookkeeping(h: History, k: nat, h': History)
    requires Bookkeeping(h) && k in h.pending
    requires h' == h.(pending := h.pending - {k}, live := h.live - {h.done[k]},
                      reported := h'.reported, log := h'.log, owner := h'.owner)
    ensures Bookkeeping(h')
  {
    assert Unread(h, k) && h.done[k] in h.live && h.done[k] in h.done;
    forall j | 0 <= j < |h.done| ensures h'.done[j] in h'.live <==> Unread(h', j) {
      assert j != k ==> (Unread(h', j) <==> Unread(h, j));
    }
  }

  lemma HandleDescriptors(r: Ring, h: History, k: nat, r': Ring, h': History)
    requires Shape(r) && Bookkeeping(h) && Descriptors(r, h) && HandleStep(r, h, k, r', h')
    requires h.done[k] in h.live
    ensures Shape(r') && Descriptors(r', h')
  {
    var c := h.sent[h.done[k]];
    forall p | p in h'.live
      ensures Holds(r'.desc, h.sent[p])
      ensures forall j :: 0 <= j < |h.sent[p].bufs| ==> h'.owner[h.sent[p].bufs[j]] == p
    {
      forall j | 0 <= j < |h.sent[p].bufs| ensures h.sent[p].bufs[j] !in c.bufs {
        assert h.owner[h.sent[p].bufs[j]] == p;
      }
    }
    forall i | 0 <= i < r.size && h'.owner[i] != -1 ensures h'.owner[i] in h'.live {
      assert h'.owner[i] == h.owner[i] && i !in c.bufs;
    }
  }

  lemma HandleRings(r: Ring, h: History, k: nat, r': Ring, h': History)
    requires Inv(r, h) && HandleStep(r, h, k, r', h')
    requires Bookkeeping(h') && Shape(r') && Descriptors(r', h')
    ensures Rings(r', h')
  {
    assert forall j :: 0 <= j < |h.done| && Unread(h', j) ==> Unread(h, j);
  }

  lemma HandleReports(h: History, k: nat, report: Report, h': History)
    requires Bookkeeping(h) && Reports(h) && k in h.pending
    requires report == Report(h.doneLen[k], h.sent[h.done[k]].tag)
    requires h' == h.(pending := h.pending - {k}, live := h'.live, owner := h'.owner,
                      reported := h.reported + [k], log := h.log + [report])
    ensures Reports(h')
  {
    assert k !in h.reported;
    forall j: nat ensures j in h'.reported <==> j < h'.polled && j !in h'.pending {
      assert j in h'.reported <==> j in h.reported || j == k;
    }
  }

  // -------------------------------------------------------------- what it means

  /** Descriptor `i` belongs to chain `p`, which is still in flight. */
  ghost predicate InFlight(h: History, p: nat, i: nat) {
    p in h.live && p < |h.sent| && i in h.sent[p].bufs
  }

  /** The table splits into free descriptors and pairwise disjoint in-flight chains: none leaks,
      none is shared. */
  lemma DescriptorsPartition(r: Ring, h: History)
    requires Inv(r, h)
    ensures forall i: nat :: i < r.size ==> (r.desc[i].next == 0xffff <==> !exists p: nat :: InFlight(h, p, i))
    ensures forall i: nat, p: nat, q: nat :: InFlight(h, p, i) && InFlight(h, q, i) ==> p == q
  {
    forall p: nat, i: nat | InFlight(h, p, i) ensures i < r.size && h.owner[i] == p { OwnerOf(r, h, p, i); }
    forall i: nat | i < r.size && r.desc[i].next != FREE ensures exists p: nat :: InFlight(h, p, i) {
      assert h.owner[i] != -1;
      assert InFlight(h, h.owner[i], i);
    }
  }

  lemma OwnerOf(r: Ring, h: History, p: nat, i: nat)
    requires Shape(r) && Descriptors(r, h) && InFlight(h, p, i)
    ensures i < r.size && h.owner[i] == p
  {
    var j :| 0 <= j < |h.sent[p].bufs| && h.sent[p].bufs[j] == i;
    assert h.owner[h.sent[p].bufs[j]] == p;
  }

  /** What a reader of the table finds by following `next` from descriptor `i` while
      VIRTQ_DESC_F_NEXT is set. */
  function Walk(desc: seq<Desc>, i: nat, fuel: nat): seq<Desc>
    decreases fuel
  {
    if fuel == 0 || i >= |desc| then []
    else if desc[i].flags % 2 == 0 then [desc[i]]
    else [desc[i]] + Walk(desc, desc[i].next, fuel - 1)
  }

  /** Descriptors for these buffers: VIRTQ_DESC_F_NEXT is 1 and VIRTQ_DESC_F_WRITE is 2. */
  ghost predicate Carries(w: seq<Desc>, nOut: nat, addrs: seq<nat>, sizes: seq<nat>) {
    && |w| == |addrs| == |sizes|
    && forall j :: 0 <= j < |w| ==>
         && w[j].addr == addrs[j] && w[j].len == sizes[j]
         && w[j].flags == (if j < |w| - 1 then 1 else 0) + (if j < nOut then 0 else 2)
  }

  /** Walking any in-flight chain ends within the table size and yields the caller's addresses and
      sizes in order, the readable ones first. */
  lemma WalkYieldsBuffers(r: Ring, h: History, p: nat)
    requires Inv(r, h) && p in h.live
    ensures Carries(Walk(r.desc, h.sent[p].bufs[0], r.size), h.sent[p].nOut, h.sent[p].addrs, h.sent[p].sizes)
  {
    ChainWalk(r.desc, h.sent[p]);
  }

  lemma ChainWalk(desc: seq<Desc>, c: Chain)
    requires GoodChain(c, |desc|) && Holds(desc, c)
    ensures Carries(Walk(desc, c.bufs[0], |desc|), c.nOut, c.addrs, c.sizes)
  {
    AscendingAtLeast(c.bufs, |c.bufs| - 1);
    WalkSuffix(desc, c, 0, |desc|);
    LinksAt(c, 0);
    var w := Walk(desc, c.bufs[0], |desc|);
    forall j | 0 <= j < |w|
      ensures w[j].addr == c.addrs[j] && w[j].len == c.sizes[j]
      ensures w[j].flags == (if j < |w| - 1 then 1 else 0) + (if j < c.nOut then 0 else 2)
    {
      assert w[j - 0] == Link(c, j);
    }
  }

  lemma {:induction false} AscendingAtLeast(s: seq<nat>, j: nat)
    requires forall a, b :: 0 <= a < b < |s| ==> s[a] < s[b]
    requires j < |s|
    ensures j <= s[j]
  {
    if j > 0 { AscendingAtLeast(s, j - 1); }
  }

  function Links(c: Chain, j: nat): seq<Desc>
    requires j <= |c.bufs| && |c.addrs| == |c.sizes| == |c.bufs|
    decreases |c.bufs| - j
  {
    if j == |c.bufs| then [] else [Link(c, j)] + Links(c, j + 1)
  }

  lemma {:induction false} LinksAt(c: Chain, j: nat)
    requires j <= |c.bufs| && |c.addrs| == |c.sizes| == |c.bufs|
    ensures |Links(c, j)| == |c.bufs| - j
    ensures forall i :: j <= i < |c.bufs| ==> Links(c, j)[i - j] == Link(c, i)
    decreases |c.bufs| - j
  {
    if j < |c.bufs| {
      LinksAt(c, j + 1);
      forall i | j <= i < |c.bufs| ensures Links(c, j)[i - j] == Link(c, i) {
        if i > j { assert Links(c, j)[i - j] == Links(c, j + 1)[i - (j + 1)]; }
      }
    }
  }

  lemma {:induction false} WalkSuffix(desc: seq<Desc>, c: Chain, j: nat, fuel: nat)
    requires GoodChain(c, |desc|) && Holds(desc, c)
    requires j < |c.bufs| && fuel >= |c.bufs| - j
    ensures Walk(desc, c.bufs[j], fuel) == Links(c, j)
    decreases |c.bufs| - j
  {
    assert desc[c.bufs[j]] == Link(c, j);
    assert Link(c, j).flags % 2 == 0 <==> j + 1 == |c.bufs|;
    if j + 1 < |c.bufs| {
      WalkSuffix(desc, c, j + 1, fuel - 1);
    } else {
      assert Links(c, j + 1) == [];
    }
  }

  /** What the device finds, by the layout of VIRTIO 1.1 section 2.6: the slots to read are those from its
      own count up to the available index, modulo the ring size; each holds the head of a chain, which
      is that of one QSend. */
  lemma DeviceReads(r: Ring, h: History, p: nat)
    requires Inv(r, h) && h.taken <= p < |h.sent|
    ensures r.availIdx == |h.sent| % 0x10000 && |h.sent| - h.taken <= r.size
    ensures Carries(Walk(r.desc, r.avail[p % r.size], r.size), h.sent[p].nOut, h.sent[p].addrs, h.sent[p].sizes)
  {
    SlotIsMod(p, r.size);
    SendFits(r, h);
    WalkYieldsBuffers(r, h, p);
  }

  /** What the driver finds: the used elements from its own count up to the used index, modulo the ring
      size, name the heads of the chains completed and so their tags, and carry their lengths. */
  lemma DriverReads(r: Ring, h: History, k: nat)
    requires Inv(r, h) && k < |h.done| && Unread(h, k)
    ensures r.usedIdx == |h.done| % 0x10000 && r.usedCtr == h.polled % 0x10000 && |h.done| <= k + r.size
    ensures var u := r.used[k % r.size];
            && u.id < r.size && u.len == h.doneLen[k] && r.tag[u.id] == h.sent[h.done[k]].tag
            && Walk(r.desc, u.id, r.size) != [] && r.desc[u.id].addr == h.sent[h.done[k]].addrs[0]
  {
    SlotIsMod(k, r.size);
    WalkYieldsBuffers(r, h, h.done[k]);
  }

  /** The calls of DNotified that were for chain `p`. */
  ghost function CallsFor(h: History, p: nat): set<nat>
    requires Bookkeeping(h) && Reports(h)
  {
    set i | 0 <= i < |h.reported| && h.done[h.reported[i]] == p
  }

  /** Each chain is reported at most once and with its own tag and length; once QPoll has caught up,
      exactly the completed chains have been reported. */
  lemma ReportedExactlyOnce(r: Ring, h: History, p: nat)
    requires Inv(r, h) && p < |h.sent|
    ensures |CallsFor(h, p)| <= 1
    ensures forall i :: i in CallsFor(h, p) ==> h.log[i].tag == h.sent[p].tag
    ensures forall i, k :: i in CallsFor(h, p) && 0 <= k < |h.done| && h.done[k] == p ==> h.log[i].len == h.doneLen[k]
    ensures p in h.live || p !in h.done ==> |CallsFor(h, p)| == 0
    ensures h.pending == {} && h.polled == |h.done| ==> (|CallsFor(h, p)| == 1 <==> p in h.done)
  {
    var s := CallsFor(h, p);
    forall i, j | i in s && j in s ensures i == j {
      assert h.done[h.reported[i]] == h.done[h.reported[j]];
    }
    if h.pending == {} && h.polled == |h.done| && p in h.done {
      var k :| 0 <= k < |h.done| && h.done[k] == p;
      assert k in h.reported;
      var i :| 0 <= i < |h.reported| && h.reported[i] == k;
      assert i in s;
    }
    if i :| i in s {
      assert s == {i};
      var k := h.reported[i];
      assert k in h.reported && !Unread(h, k) && h.done[k] == p;
    }
  }

  // --------------------------------------------------------------- whole runs

  datatype Config = Config(r: Ring, h: History)

  /** One step of driver or device when QPoll is not nested: it claims only when it has nothing
      left to handle, and handles in ring order. Sends and device steps may come in between. */
  ghost predicate Next(s: Config, s': Config)
    requires Shape(s.r)
  {
    || (exists c :: SendStep(s.r, s.h, c, s'.r, s'.h))
    || TakeStep(s.r, s.h, s'.r, s'.h)
    || (exists p, len :: CompleteStep(s.r, s.h, p, len, s'.r, s'.h))
    || (s.h.pending == {} && ClaimStep(s.r, s.h, s'.r, s'.h))
    || (exists k :: (forall j :: j in s.h.pending ==> k <= j) && HandleStep(s.r, s.h, k, s'.r, s'.h))
  }

  /** What a running QPoll has still to handle is the tail of what it claimed. */
  ghost predicate InOrder(h: History) {
    forall k, j: nat :: k in h.pending && k <= j < h.polled ==> j in h.pending
  }

  lemma InOrderUnharmed(r: Ring, h: History, p: nat)
    requires Inv(r, h) && InOrder(h) && p in h.live && p !in h.done
    ensures Unharmed(r, h)
  {
    forall k | k in h.pending ensures |h.done| < k + r.size {
      assert forall j :: k <= j < |h.done| ==> Unread(h, j);
      UsedFits(r, h, k, [p]);
    }
  }

  lemma CompleteNextInv(s: Config, p: nat, len: nat, s': Config)
    requires Inv(s.r, s.h) && InOrder(s.h) && CompleteStep(s.r, s.h, p, len, s'.r, s'.h)
    ensures Inv(s'.r, s'.h)
  {
    InOrderUnharmed(s.r, s.h, p);
    CompleteInv(s.r, s.h, p, len, s'.r, s'.h);
  }

  lemma NextInOrder(s: Config, s': Config)
    requires Shape(s.r) && Bookkeeping(s.h) && InOrder(s.h) && Next(s, s')
    ensures InOrder(s'.h)
  {}

  lemma NextInv(s: Config, s': Config)
    requires Inv(s.r, s.h) && InOrder(s.h) && Next(s, s')
    ensures Inv(s'.r, s'.h) && InOrder(s'.h)
  {
    NextInOrder(s, s');
    if c :| SendStep(s.r, s.h, c, s'.r, s'.h) {
      SendInv(s.r, s.h, c, s'.r, s'.h);
    } else if TakeStep(s.r, s.h, s'.r, s'.h) {
      TakeInv(s.r, s.h, s'.r, s'.h);
    } else if p, len :| CompleteStep(s.r, s.h, p, len, s'.r, s'.h) {
      CompleteNextInv(s, p, len, s');
    } else if ClaimStep(s.r, s.h, s'.r, s'.h) {
      ClaimInv(s.r, s.h, s'.r, s'.h);
    } else {
      var k :| (forall j :: j in s.h.pending ==> k <= j) && HandleStep(s.r, s.h, k, s'.r, s'.h);
      HandleInv(s.r, s.h, k, s'.r, s'.h);
    }
  }

  ghost predicate Run(run: seq<Config>) {
    && |run| > 0 && Init(run[0].r, run[0].h)
    && forall i :: 0 <= i < |run| - 1 ==> Shape(run[i].r) && Next(run[i], run[i + 1])
  }

  /** Every state of every run is good: no bound on its length or on index wrap-around. */
  lemma {:induction false} RunInv(run: seq<Config>)
    requires Run(run)
    ensures Inv(run[|run| - 1].r, run[|run| - 1].h) && InOrder(run[|run| - 1].h)
  {
    var n := |run| - 1;
    if n == 0 {
      InitInv(run[0].r, run[0].h);
    } else {
      RunInv(run[..n]);
      assert Next(run[n - 1], run[n]);
      NextInv(run[n - 1], run[n]);
    }
  }
}
