/** The screen-update scheduler's bookkeeping (virtio/device-gpu.c, sendPixels and DNotified), stated
    over the history of the virtqueue it uses. Pair j is the transfer sent at position 2j and the
    flush sent at position 2j + 1, both carried by one of `m` message buffers. */
module GpuScheduler {
  import opened Words
  import opened Virtqueue
  import opened VirtqDriver

  /** Half-open: rows [top, bottom), columns [left, right). An off-screen cursor has a negative end. */
  datatype Rect = Rect(top: nat, left: nat, bottom: int, right: int)
  datatype Pair = Pair(buf: nat, rect: Rect)
  /** A rectangle with pixels passed to sendPixels when `stamp` pairs had been queued. */
  datatype Request = Request(rect: Rect, stamp: nat)
  datatype Message = Blank | Transfer(x: nat, y: nat, width: int, height: int, offset: nat)
                   | Flush(x: nat, y: nat, width: int, height: int)
  /** Where the messages live (physical address) and the front buffer's row stride. */
  datatype Layout = Layout(base: nat, rowbytes: nat)

  const NOTHING := Rect(0x7fff, 0x7fff, 0, 0)
  const TFER: nat := 0x74666572
  const BLOCK: nat := 64

  predicate Empty(r: Rect) {
    r.top >= r.bottom || r.left >= r.right
  }

  /** What may be passed to sendPixels; `NOTHING` is one of the empty ones. */
  ghost predicate Given(r: Rect) {
    r.top <= 0x7fff && r.left <= 0x7fff && r.bottom <= 0x7fff && r.right <= 0x7fff
  }

  ghost predicate Proper(r: Rect) {
    Given(r) && !Empty(r)
  }

  ghost predicate Contains(a: Rect, b: Rect) {
    a.top <= b.top && a.left <= b.left && b.bottom <= a.bottom && b.right <= a.right
  }

  // ------------------------------------------------------------ what position p carries

  /** The message of the chain at position `p`. */
  function MessageAt(l: Layout, pairs: seq<Pair>, p: nat): Message
    requires p / 2 < |pairs|
  {
    var r := pairs[p / 2].rect;
    if p % 2 == 0
    then Transfer(r.left, r.top, r.right - r.left, r.bottom - r.top, r.top * l.rowbytes + r.left * 4)
    else Flush(r.left, r.top, r.right - r.left, r.bottom - r.top)
  }

  /** The 64-byte block of the page that holds that message: three blocks for each buffer. */
  function BlockAt(pairs: seq<Pair>, p: nat): nat
    requires p / 2 < |pairs|
  {
    3 * pairs[p / 2].buf + p % 2
  }

  ghost predicate IsCommand(c: Chain, l: Layout, pairs: seq<Pair>, p: nat)
    requires p / 2 < |pairs|
  {
    && |c.bufs| == 2 && |c.addrs| == 2 && c.nOut == 1
    && c.addrs[0] == l.base + BLOCK * BlockAt(pairs, p)
    && c.addrs[1] == l.base + BLOCK * (3 * pairs[p / 2].buf + 2) + p % 2 * 32
    && c.sizes == [if p % 2 == 0 then 56 else 48, 24]
    && c.tag == if p % 2 == 0 then TFER else pairs[p / 2].buf
  }

  // ------------------------------------------------------------------ invariants

  /** The device has completed chains in the order they were sent. */
  ghost predicate Lined(h: History) {
    |h.done| <= |h.sent| && forall k :: 0 <= k < |h.done| ==> h.done[k] == k
  }

  ghost predicate Commands(h: History, l: Layout, pairs: seq<Pair>) {
    && 2 * |pairs| - 2 <= |h.sent| <= 2 * |pairs|
    && forall p :: 0 <= p < |h.sent| ==> IsCommand(h.sent[p], l, pairs, p)
  }

  /** Every chain still in flight belongs to one of the last `n` pairs. */
  ghost predicate Within(live: set<nat>, pairs: nat, n: int) {
    forall p :: p in live ==> 2 * (pairs - n) <= p
  }

  /** `carrier[b]` is the position of the flush in flight for buffer b, or -1 when b is free. */
  ghost predicate Buffers(live: set<nat>, pairs: seq<Pair>, free: set<nat>, carrier: seq<int>) {
    && (forall j :: 0 <= j < |pairs| ==> pairs[j].buf < |carrier|)
    && (forall b :: b in free ==> b < |carrier|)
    && (forall b :: 0 <= b < |carrier| ==> (carrier[b] == -1 <==> b in free))
    && (forall b :: 0 <= b < |carrier| && carrier[b] != -1 ==> IsCarrier(live, pairs, b, carrier[b]))
    && (forall p :: p in live && p % 2 == 1 && p / 2 < |pairs| ==> carrier[pairs[p / 2].buf] == p)
  }

  ghost predicate IsCarrier(live: set<nat>, pairs: seq<Pair>, b: nat, p: int) {
    0 <= p && p in live && p % 2 == 1 && p / 2 < |pairs| && pairs[p / 2].buf == b
  }

  /** Messages the device may still read are intact. */
  ghost predicate Intact(h: History, l: Layout, pairs: seq<Pair>, page: seq<Message>) {
    forall p :: |h.done| <= p < |h.sent| && p / 2 < |pairs| ==>
      BlockAt(pairs, p) < |page| && page[BlockAt(pairs, p)] == MessageAt(l, pairs, p)
  }

  /** What the device has read so far, one message for each completed chain. */
  ghost predicate Seen(h: History, l: Layout, pairs: seq<Pair>, seen: seq<Message>) {
    |seen| == |h.done| && forall p :: 0 <= p < |seen| && p / 2 < |pairs| ==> seen[p] == MessageAt(l, pairs, p)
  }

  /** Heads of the chains the device holds, oldest first. */
  ghost predicate Fifo(h: History, fifo: seq<nat>) {
    && |h.done| <= h.taken <= |h.sent| && |fifo| == h.taken - |h.done|
    && forall j :: 0 <= j < |fifo| ==>
         |h.sent[|h.done| + j].bufs| > 0 && fifo[j] == h.sent[|h.done| + j].bufs[0]
  }

  ghost predicate CoveredBy(r: Request, pairs: seq<Pair>, pend: Rect) {
    Contains(pend, r.rect) || exists j :: r.stamp <= j < |pairs| && Contains(pairs[j].rect, r.rect)
  }

  /** No request is forgotten: a pair queued since then, or the pending rectangle, covers it. */
  ghost predicate Covered(requests: seq<Request>, pairs: seq<Pair>, pend: Rect) {
    forall i :: 0 <= i < |requests| ==> CoveredBy(requests[i], pairs, pend)
  }

  /** The commands in the queue, the page they point into, and what the device has done with them. */
  ghost predicate Lane(h: History, l: Layout, pairs: seq<Pair>, page: seq<Message>, seen: seq<Message>, fifo: seq<nat>) {
    Lined(h) && Commands(h, l, pairs) && Intact(h, l, pairs, page) && Seen(h, l, pairs, seen) && Fifo(h, fifo)
  }

  // ------------------------------------------------------------------ the lane's steps

  lemma LaneTake(h: History, l: Layout, pairs: seq<Pair>, page: seq<Message>, seen: seq<Message>, fifo: seq<nat>, h': History)
    requires Lane(h, l, pairs, page, seen, fifo)
    requires h.taken < |h.sent| && h' == h.(taken := h.taken + 1) && |h.sent[h.taken].bufs| > 0
    ensures Lane(h', l, pairs, page, seen, fifo + [h.sent[h.taken].bufs[0]])
  {}

  lemma LaneFinish(h: History, l: Layout, pairs: seq<Pair>, page: seq<Message>, seen: seq<Message>, fifo: seq<nat>,
                   h': History)
    requires Lane(h, l, pairs, page, seen, fifo) && |fifo| > 0
    requires h' == h.(done := h.done + [|h.done|], doneLen := h'.doneLen)
    ensures BlockAt(pairs, |h.done|) < |page|
    ensures Lane(h', l, pairs, page, seen + [page[BlockAt(pairs, |h.done|)]], fifo[1..])
  {
    forall j | 0 <= j < |fifo| - 1
      ensures |h'.sent[|h'.done| + j].bufs| > 0 && fifo[1..][j] == h'.sent[|h'.done| + j].bufs[0]
    {
      assert fifo[1..][j] == fifo[j + 1];
    }
  }

  /** The oldest chain the device holds, and where its message is. */
  lemma Oldest(r: Ring, h: History, l: Layout, pairs: seq<Pair>, page: seq<Message>, seen: seq<Message>, fifo: seq<nat>,
               held: set<nat>)
    requires Inv(r, h) && HeldHeads(held, h) && Lane(h, l, pairs, page, seen, fifo) && |fifo| > 0
    ensures var p := |h.done|; p in h.live && Held(h, p) && fifo[0] == h.sent[p].bufs[0]
    ensures fifo[0] in held && fifo[0] < r.size
    ensures |h.done| / 2 < |pairs| && BlockAt(pairs, |h.done|) < |page|
    ensures r.desc[fifo[0]].addr == l.base + BLOCK * BlockAt(pairs, |h.done|)
  {
    var p := |h.done|;
    assert p !in h.done;
    assert h.sent[p + 0].bufs[0] == fifo[0];
    assert p in h.live by { LiveIs(h); }
    assert Held(h, p);
    HeadReads(r, h, p);
  }

  lemma HeadReads(r: Ring, h: History, p: nat)
    requires Shape(r) && Descriptors(r, h) && p in h.live
    ensures h.sent[p].bufs[0] < r.size && r.desc[h.sent[p].bufs[0]].addr == h.sent[p].addrs[0]
  {
    var c := h.sent[p];
    assert r.desc[c.bufs[0]] == Link(c, 0);
  }

  lemma HeadNames(r: Ring, h: History, p: nat, q: nat)
    requires Shape(r) && Descriptors(r, h) && p in h.live && q in h.live
    requires h.sent[p].bufs[0] == h.sent[q].bufs[0]
    ensures p == q
  {
    assert h.owner[h.sent[p].bufs[0]] == p && h.owner[h.sent[q].bufs[0]] == q;
  }

  lemma LanePost(h: History, l: Layout, pairs: seq<Pair>, page: seq<Message>, seen: seq<Message>, fifo: seq<nat>,
                 c: Chain, h': History)
    requires Lane(h, l, pairs, page, seen, fifo) && |h.sent| < 2 * |pairs|
    requires h' == h.(sent := h.sent + [c], live := h'.live, owner := h'.owner)
    requires IsCommand(c, l, pairs, |h.sent|)
    requires BlockAt(pairs, |h.sent|) < |page| && page[BlockAt(pairs, |h.sent|)] == MessageAt(l, pairs, |h.sent|)
    ensures Lane(h', l, pairs, page, seen, fifo)
  {
    assert forall p :: 0 <= p < |h.sent| ==> h'.sent[p] == h.sent[p];
  }

  lemma LaneAnnounce(h: History, l: Layout, pairs: seq<Pair>, page: seq<Message>, seen: seq<Message>, fifo: seq<nat>,
                     pair: Pair)
    requires Lane(h, l, pairs, page, seen, fifo) && |h.sent| == 2 * |pairs|
    ensures Lane(h, l, pairs + [pair], page, seen, fifo)
  {
    var pairs' := pairs + [pair];
    forall p: nat | p < |h.sent|
      ensures p / 2 < |pairs| && MessageAt(l, pairs', p) == MessageAt(l, pairs, p) && BlockAt(pairs', p) == BlockAt(pairs, p)
    {
      assert pairs'[p / 2] == pairs[p / 2];
    }
  }

  /** Claiming and handling used elements do not concern the lane. */
  lemma LaneKept(h: History, l: Layout, pairs: seq<Pair>, page: seq<Message>, seen: seq<Message>, fifo: seq<nat>,
                 h': History)
    requires Lane(h, l, pairs, page, seen, fifo)
    requires h'.sent == h.sent && h'.done == h.done && h'.taken == h.taken
    ensures Lane(h', l, pairs, page, seen, fifo)
  {}

  // ------------------------------------------------- in-order completion and what is in flight

  lemma LiveIs(h: History)
    requires Bookkeeping(h) && Lined(h)
    ensures forall p: nat :: p in h.live <==> p < |h.sent| && (p in h.pending || h.polled <= p)
  {
    forall p: nat ensures p in h.live <==> p < |h.sent| && (p in h.pending || h.polled <= p) {
      if p < |h.done| {
        assert h.done[p] in h.live <==> Unread(h, p);
      } else if p < |h.sent| {
        assert p !in h.done;
      }
    }
  }

  ghost function UsedBy(owner: seq<int>, live: set<nat>): (s: set<nat>)
    ensures forall i: nat :: i in s <==> i < |owner| && owner[i] in live
  {
    set i: nat | i < |owner| && owner[i] in live
  }

  lemma {:induction false} UsedByCount(r: Ring, h: History, live: set<nat>)
    requires Shape(r) && Descriptors(r, h) && live <= h.live
    requires forall p :: p in live ==> |h.sent[p].bufs| == 2
    ensures |UsedBy(h.owner, live)| == 2 * |live|
  {
    if live == {} {
      assert UsedBy(h.owner, live) == {};
    } else {
      var p :| p in live;
      UsedByCount(r, h, live - {p});
      OwnedPair(r, h, p);
      UsedByStep(h.owner, live, p, h.sent[p].bufs[0], h.sent[p].bufs[1]);
    }
  }

  lemma UsedByStep(owner: seq<int>, live: set<nat>, p: nat, a: nat, b: nat)
    requires p in live && a != b && a < |owner| && b < |owner|
    requires forall i :: 0 <= i < |owner| ==> (owner[i] == p <==> i == a || i == b)
    ensures |UsedBy(owner, live)| == |UsedBy(owner, live - {p})| + 2
  {
    var less := UsedBy(owner, live - {p});
    var both: set<nat> := {a, b};
    assert |both| == 2;
    assert less !! both;
    assert UsedBy(owner, live) == less + both;
  }

  lemma OwnedPair(r: Ring, h: History, p: nat)
    requires Shape(r) && Descriptors(r, h) && p in h.live && |h.sent[p].bufs| == 2
    ensures var a, b := h.sent[p].bufs[0], h.sent[p].bufs[1];
            a != b && a < r.size && b < r.size &&
            forall i :: 0 <= i < r.size ==> (h.owner[i] == p <==> i == a || i == b)
  {
    assert h.owner[h.sent[p].bufs[0]] == p && h.owner[h.sent[p].bufs[1]] == p;
    forall i | 0 <= i < r.size && h.owner[i] == p ensures i == h.sent[p].bufs[0] || i == h.sent[p].bufs[1] {
      assert i in h.sent[p].bufs;
    }
  }

  /** When every chain has two buffers, each one in flight costs exactly two descriptors. */
  lemma FreeIsRest(r: Ring, h: History)
    requires Shape(r) && Descriptors(r, h)
    requires forall p :: p in h.live ==> |h.sent[p].bufs| == 2
    ensures FreeCount(r.desc) == r.size - 2 * |h.live|
  {
    UsedByCount(r, h, h.live);
    var used, free := UsedBy(h.owner, h.live), FreeBelow(r.desc, r.size);
    SpanSize(0, r.size);
    assert used + free == Span(0, r.size);
    assert used * free == {};
  }

  lemma {:induction false} SpanSize(lo: nat, hi: nat)
    requires lo <= hi
    ensures |Span(lo, hi)| == hi - lo
    decreases hi - lo
  {
    if lo < hi { SpanSize(lo + 1, hi); }
  }

  lemma SubsetSize(s: set<nat>, t: set<nat>)
    requires s <= t
    ensures |s| <= |t|
  {
    if s != {} {
      var x :| x in s;
      SubsetSize(s - {x}, t - {x});
    }
  }

  /** Inside the window the queue always has room for the chains of the newest pair. */
  lemma Room(r: Ring, h: History, l: Layout, pairs: seq<Pair>, m: nat)
    requires Shape(r) && Bookkeeping(h) && Descriptors(r, h) && Commands(h, l, pairs)
    requires Within(h.live, |pairs|, m) && r.size >= 4 * m && m > 0 && |h.sent| < 2 * |pairs|
    ensures 2 <= FreeCount(r.desc)
  {
    FreeIsRest(r, h);
    var lo := if |pairs| >= m then 2 * (|pairs| - m) else 0;
    SubsetSize(h.live, Span(lo, |h.sent|));
    SpanSize(lo, |h.sent|);
  }

  /** Nor can the device overwrite a used-ring slot that some poll has still to read. */
  lemma WindowUnharmed(r: Ring, h: History, pairs: nat, m: nat)
    requires Shape(r) && Bookkeeping(h) && Lined(h)
    requires Within(h.live, pairs, m) && r.size >= 4 * m && m > 0
    requires |h.done| < |h.sent| <= 2 * pairs
    ensures Unharmed(r, h)
  {
    forall k | k in h.pending ensures |h.done| < k + r.size {
      assert Unread(h, k) && h.done[k] == k && k in h.live;
    }
  }

  // ------------------------------------------------------ why a free buffer means a free slot

  /** When nothing is half-handled, one free buffer leaves room for a whole pair. */
  lemma RoomFromFreeBuffer(h: History, pairs: seq<Pair>, free: set<nat>, carrier: seq<int>, b: nat)
    requires Bookkeeping(h) && Lined(h) && h.pending == {} && |h.sent| == 2 * |pairs|
    requires Buffers(h.live, pairs, free, carrier) && b in free
    ensures Within(h.live, |pairs|, |carrier| - 1)
  {
    LiveIs(h);
    var lo := h.polled / 2;
    var bufs := seq(|pairs| - lo, i requires 0 <= i < |pairs| - lo => pairs[lo + i].buf);
    forall i | 0 <= i < |bufs| ensures carrier[bufs[i]] == 2 * (lo + i) + 1 && bufs[i] < |carrier| && bufs[i] != b {
      assert 2 * (lo + i) + 1 in h.live;
      assert (2 * (lo + i) + 1) / 2 == lo + i && (2 * (lo + i) + 1) % 2 == 1;
    }
    var all := bufs + [b];
    forall i, j | 0 <= i < j < |all| ensures all[i] != all[j] {
      if j < |bufs| { assert carrier[bufs[i]] != carrier[bufs[j]]; }
    }
    Pigeonhole(all, |carrier|);
  }

  /** While one poll is nested in another, the flush just handled was the oldest in flight. */
  lemma RoomAfterFlush(live: set<nat>, pairs: nat, m: nat, k: nat, live': set<nat>)
    requires Within(live, pairs, m) && k in live && k % 2 == 1
    requires live' == live - {k} && forall p :: p in live' ==> k < p
    ensures Within(live', pairs, m - 1)
  {
    assert 2 * (pairs - m) <= k;
    assert 2 * (pairs - m) < k by { assert (2 * (pairs - m)) % 2 == 0; }
  }

  // ------------------------------------------------------------------ split pairs

  /** Pair j's flush has been reclaimed, its transfer not yet. */
  ghost predicate Split(live: set<nat>, j: nat) {
    2 * j in live && 2 * j + 1 !in live
  }

  ghost predicate OneSplit(live: set<nat>) {
    forall i: nat, j: nat :: Split(live, i) && Split(live, j) ==> i == j
  }

  /** An outer poll has still to handle positions a to b, and the poll that runs now k to stop. If only
      one of them has something left, or the inner one was the last to read the used index, at most one
      pair is split: the last that the outer poll claimed. */
  lemma SplitAtMostOnce(h: History, a: nat, b: nat, k: nat, stop: nat)
    requires Bookkeeping(h) && Lined(h) && |h.sent| % 2 == 0
    requires h.pending == Span(a, b) + Span(k, stop) && stop <= h.polled
    requires a < b ==> stop == h.polled && b <= k <= stop
    ensures OneSplit(h.live)
  {
    LiveIs(h);
    forall i: nat, j: nat | Split(h.live, i) && Split(h.live, j) ensures i == j {
      var end := if a < b then b else stop;
      assert 2 * i + 1 == end by { SplitEnds(h, a, b, k, stop, i); }
      assert 2 * j + 1 == end by { SplitEnds(h, a, b, k, stop, j); }
    }
  }

  lemma SplitEnds(h: History, a: nat, b: nat, k: nat, stop: nat, j: nat)
    requires forall p: nat :: p in h.live <==> p < |h.sent| && (p in h.pending || h.polled <= p)
    requires |h.sent| % 2 == 0 && h.pending == Span(a, b) + Span(k, stop) && stop <= h.polled
    requires a < b ==> stop == h.polled && b <= k <= stop
    requires Split(h.live, j)
    ensures 2 * j + 1 == if a < b then b else stop
  {
    assert 2 * j + 1 < |h.sent|;
    assert 2 * j + 1 !in h.pending && 2 * j + 1 < h.polled;
  }

  // ------------------------------------------------------------------ steps

  /** Handling position `k` frees its buffer when it is a flush. */
  lemma HandleBuffers(h: History, pairs: seq<Pair>, free: set<nat>, carrier: seq<int>, k: nat, h': History)
    requires Buffers(h.live, pairs, free, carrier) && k in h.live && k / 2 < |pairs|
    requires h'.live == h.live - {k}
    ensures k % 2 == 0 ==> Buffers(h'.live, pairs, free, carrier)
    ensures k % 2 == 1 ==> var b := pairs[k / 2].buf;
                           Buffers(h'.live, pairs, free + {b}, carrier[b := -1])
  {
    if k % 2 == 1 {
      var b := pairs[k / 2].buf;
      assert carrier[b] == k;
      var carrier' := carrier[b := -1];
      forall p | p in h'.live && p % 2 == 1 && p / 2 < |pairs| ensures carrier'[pairs[p / 2].buf] == p {
        assert carrier[pairs[p / 2].buf] == p;
      }
      forall c | 0 <= c < |carrier| && carrier'[c] != -1 ensures IsCarrier(h'.live, pairs, c, carrier'[c]) {
        assert IsCarrier(h.live, pairs, c, carrier[c]);
        assert pairs[carrier[c] / 2].buf == c;
      }
    } else {
      forall c | 0 <= c < |carrier| && carrier[c] != -1 ensures IsCarrier(h'.live, pairs, c, carrier[c]) {
        assert IsCarrier(h.live, pairs, c, carrier[c]);
      }
    }
  }

  /** A pair is announced: its buffer is taken but nothing is in flight for it yet. */
  lemma AnnounceBuffers(live: set<nat>, pairs: seq<Pair>, free: set<nat>, carrier: seq<int>, pair: Pair)
    requires Buffers(live, pairs, free, carrier) && pair.buf in free
    requires forall p :: p in live ==> p < 2 * |pairs|
    ensures Buffers(live, pairs + [pair], free, carrier)
  {
    var pairs' := pairs + [pair];
    forall p | p in live && p % 2 == 1 && p / 2 < |pairs'| ensures carrier[pairs'[p / 2].buf] == p {
      assert p / 2 < |pairs|;
    }
    forall c | 0 <= c < |carrier| && carrier[c] != -1 ensures IsCarrier(live, pairs', c, carrier[c]) {
      assert IsCarrier(live, pairs, c, carrier[c]);
    }
  }

  /** The chain at position `p` of the newest pair goes out. */
  lemma SendBuffers(live: set<nat>, pairs: seq<Pair>, free: set<nat>, carrier: seq<int>, p: nat)
    requires Buffers(live, pairs, free, carrier) && |pairs| > 0 && p / 2 == |pairs| - 1
    requires pairs[|pairs| - 1].buf in free && p !in live
    ensures p % 2 == 0 ==> Buffers(live + {p}, pairs, free, carrier)
    ensures p % 2 == 1 ==> var b := pairs[|pairs| - 1].buf;
                           Buffers(live + {p}, pairs, free - {b}, carrier[b := p])
  {
    var b := pairs[|pairs| - 1].buf;
    forall c | 0 <= c < |carrier| && carrier[c] != -1 ensures IsCarrier(live + {p}, pairs, c, carrier[c]) {
      assert IsCarrier(live, pairs, c, carrier[c]);
    }
    if p % 2 == 1 {
      assert IsCarrier(live + {p}, pairs, b, p);
      var carrier' := carrier[b := p];
      forall q | q in live + {p} && q % 2 == 1 && q / 2 < |pairs| ensures carrier'[pairs[q / 2].buf] == q {
        if q != p { assert carrier[pairs[q / 2].buf] == q; }
      }
    }
  }

  /** None of the first `n` pairs still uses the messages of buffer `b`. */
  ghost predicate Untouched(h: History, pairs: seq<Pair>, n: nat, b: nat)
    requires n <= |pairs|
  {
    forall p :: |h.done| <= p < |h.sent| && p / 2 < n ==> pairs[p / 2].buf != b
  }

  /** The device has finished with the messages of a free buffer. */
  lemma FreeIsUntouched(h: History, pairs: seq<Pair>, free: set<nat>, carrier: seq<int>, b: nat)
    requires Bookkeeping(h) && Lined(h) && Buffers(h.live, pairs, free, carrier) && b in free
    requires |h.sent| == 2 * |pairs|
    ensures Untouched(h, pairs, |pairs|, b)
  {
    LiveIs(h);
    forall p | |h.done| <= p < |h.sent| ensures pairs[p / 2].buf != b {
      var f := p - p % 2 + 1;
      assert f in h.live && f % 2 == 1 && f / 2 == p / 2;
      assert carrier[pairs[f / 2].buf] == f;
    }
  }

  /** So either of its blocks may be rewritten before the newest pair's command for it goes out. */
  lemma RewriteKeeps(h: History, l: Layout, pairs: seq<Pair>, page: seq<Message>, seen: seq<Message>, fifo: seq<nat>)
    requires Lane(h, l, pairs, page, seen, fifo)
    requires |pairs| > 0 && Untouched(h, pairs, |pairs| - 1, pairs[|pairs| - 1].buf)
    requires |h.sent| < 2 * |pairs| && BlockAt(pairs, |h.sent|) < |page|
    ensures Lane(h, l, pairs, page[BlockAt(pairs, |h.sent|) := MessageAt(l, pairs, |h.sent|)], seen, fifo)
  {
    var x := BlockAt(pairs, |h.sent|);
    forall p | |h.done| <= p < |h.sent| ensures BlockAt(pairs, p) != x {
      assert BlockAt(pairs, p) / 3 == pairs[p / 2].buf && x / 3 == pairs[|pairs| - 1].buf;
    }
  }

  // ------------------------------------------------------------- the pending rectangle

  lemma CoverGrow(requests: seq<Request>, pairs: seq<Pair>, pend: Rect, pend': Rect)
    requires Covered(requests, pairs, pend) && Contains(pend', pend)
    ensures Covered(requests, pairs, pend')
  {
    forall i | 0 <= i < |requests| ensures CoveredBy(requests[i], pairs, pend') {
      assert CoveredBy(requests[i], pairs, pend);
    }
  }

  /** Queueing a pair for a rectangle that contains the pending one discharges it. */
  lemma CoverSend(requests: seq<Request>, pairs: seq<Pair>, pend: Rect, pair: Pair, pend': Rect)
    requires Covered(requests, pairs, pend) && Contains(pair.rect, pend)
    requires forall i :: 0 <= i < |requests| ==> requests[i].stamp <= |pairs|
    ensures Covered(requests, pairs + [pair], pend')
  {
    var pairs' := pairs + [pair];
    forall i | 0 <= i < |requests| ensures CoveredBy(requests[i], pairs', pend') {
      var r := requests[i];
      assert CoveredBy(r, pairs, pend);
      if Contains(pend, r.rect) {
        assert Contains(pairs'[|pairs|].rect, r.rect);
      } else {
        var j :| r.stamp <= j < |pairs| && Contains(pairs[j].rect, r.rect);
        assert Contains(pairs'[j].rect, r.rect);
      }
    }
  }

  function Union(a: Rect, b: Rect): (u: Rect)
    ensures Contains(u, a) && Contains(u, b)
    ensures forall v :: Contains(v, a) && Contains(v, b) ==> Contains(v, u)
  {
    Rect(if a.top < b.top then a.top else b.top, if a.left < b.left then a.left else b.left,
         if a.bottom > b.bottom then a.bottom else b.bottom, if a.right > b.right then a.right else b.right)
  }

  function RectsOf(requests: seq<Request>): (r: seq<Rect>)
    ensures |r| == |requests| && forall i :: 0 <= i < |r| ==> r[i] == requests[i].rect
  {
    seq(|requests|, i requires 0 <= i < |requests| => requests[i].rect)
  }

  /** The rectangles that have pixels. */
  function Drawn(rects: seq<Rect>): seq<Rect> {
    if rects == [] then []
    else Drawn(rects[..|rects| - 1]) + (if Empty(rects[|rects| - 1]) then [] else [rects[|rects| - 1]])
  }

  /** The union of rectangles one of which has pixels has pixels. */
  lemma UnionProper(a: Rect, b: Rect)
    requires Given(a) && Given(b)
    ensures Given(Union(a, b)) && (Empty(Union(a, b)) ==> Empty(a) && Empty(b))
  {}

  lemma CoverAdd(requests: seq<Request>, pairs: seq<Pair>, pend: Rect, r: Request)
    requires Covered(requests, pairs, pend) && CoveredBy(r, pairs, pend)
    ensures Covered(requests + [r], pairs, pend)
  {}

  // -------------------------------------------------------------- what it means

  lemma HandledOnce(r: Ring, h: History, p: nat)
    requires Inv(r, h) && Lined(h) && h.pending == {} && p < |h.sent|
    ensures |CallsFor(h, p)| == if p < h.polled then 1 else 0
  {
    ReportedExactlyOnce(r, h, p);
    LiveIs(h);
    if p < h.polled {
      assert p in h.reported;
      var i :| 0 <= i < |h.reported| && h.reported[i] == p;
      assert h.done[p] == p && i in CallsFor(h, p);
    }
  }

  /** With no free buffer, every buffer has a flush of its own still in flight, so some interrupt
      is still to come. */
  lemma AllBusy(live: set<nat>, pairs: seq<Pair>, carrier: seq<int>, b: nat)
    requires Buffers(live, pairs, {}, carrier) && b < |carrier|
    ensures exists p: nat :: p in live && IsCarrier(live, pairs, b, p)
  {
    assert carrier[b] != -1 && IsCarrier(live, pairs, b, carrier[b]);
  }

  /** The byte of the front buffer at which pixel (x, y) starts. */
  function PixelByte(rowbytes: nat, x: nat, y: nat): nat {
    y * rowbytes + 4 * x
  }

  /** The device has read a transfer and then a flush of one rectangle that contains `r`. By VIRTIO 1.1
      section 5.7 the transfer takes its pixel (i, j) from byte i * 4 + j * rowbytes after its offset, and
      puts it at (x + i, y + j): there it comes from. */
  ghost predicate ShownAt(seen: seq<Message>, q: nat, rowbytes: nat, r: Rect) {
    && q + 1 < |seen| && seen[q].Transfer?
    && var m := seen[q];
       && m.x <= r.left && m.y <= r.top && r.right <= m.x + m.width && r.bottom <= m.y + m.height
       && seen[q + 1] == Flush(m.x, m.y, m.width, m.height)
       && forall i: nat, j: nat :: i < m.width && j < m.height ==>
            m.offset + PixelByte(rowbytes, i, j) == PixelByte(rowbytes, m.x + i, m.y + j)
  }

  lemma PixelSum(rowbytes: nat, x: nat, y: nat, i: nat, j: nat)
    ensures PixelByte(rowbytes, x, y) + PixelByte(rowbytes, i, j) == PixelByte(rowbytes, x + i, y + j)
  {
    MulAdd(rowbytes, y, j);
    assert rowbytes * y == y * rowbytes && rowbytes * j == j * rowbytes && rowbytes * (y + j) == (y + j) * rowbytes;
  }

  lemma PairShows(l: Layout, pairs: seq<Pair>, seen: seq<Message>, j: nat, r: Rect)
    requires j < |pairs| && 2 * j + 1 < |seen| && Contains(pairs[j].rect, r)
    requires seen[2 * j] == MessageAt(l, pairs, 2 * j) && seen[2 * j + 1] == MessageAt(l, pairs, 2 * j + 1)
    ensures ShownAt(seen, 2 * j, l.rowbytes, r)
  {
    var m := seen[2 * j];
    forall x: nat, y: nat | x < m.width && y < m.height
      ensures m.offset + PixelByte(l.rowbytes, x, y) == PixelByte(l.rowbytes, m.x + x, m.y + y)
    {
      PixelSum(l.rowbytes, m.x, m.y, x, y);
    }
  }

  /** Once the queue has drained and nothing is pending, the device has read, for every rectangle
      ever passed in and after it was passed in, a transfer of a rectangle containing it and then
      the flush of the same rectangle. */
  lemma EverythingShown(h: History, l: Layout, pairs: seq<Pair>, seen: seq<Message>, requests: seq<Request>, i: nat)
    requires Lined(h) && Seen(h, l, pairs, seen) && Covered(requests, pairs, NOTHING)
    requires |h.done| == |h.sent| == 2 * |pairs|
    requires i < |requests| && Proper(requests[i].rect)
    ensures exists q: nat :: 2 * requests[i].stamp <= q && ShownAt(seen, q, l.rowbytes, requests[i].rect)
  {
    assert CoveredBy(requests[i], pairs, NOTHING);
    var j: nat :| requests[i].stamp <= j < |pairs| && Contains(pairs[j].rect, requests[i].rect);
    PairShows(l, pairs, seen, j, requests[i].rect);
  }

  // -------------------------------------------------------------- the buffers in flight

  /** Buffer i of chain p and buffer j of chain q have no byte in common. */
  ghost predicate NoOverlap(c: Chain, i: nat, d: Chain, j: nat) {
    && i < |c.addrs| && i < |c.sizes| && j < |d.addrs| && j < |d.sizes|
    && (c.addrs[i] + c.sizes[i] <= d.addrs[j] || d.addrs[j] + d.sizes[j] <= c.addrs[i])
  }

  /** Of what the device may still read or write no two buffers overlap, and all lie in the page. */
  lemma BuffersApart(h: History, l: Layout, pairs: seq<Pair>, free: set<nat>, carrier: seq<int>, p: nat, i: nat, q: nat, j: nat)
    requires Bookkeeping(h) && Lined(h) && Commands(h, l, pairs) && Buffers(h.live, pairs, free, carrier)
    requires |h.sent| == 2 * |pairs| && |carrier| <= 16
    requires |h.done| <= p < |h.sent| && |h.done| <= q < |h.sent| && i < 2 && j < 2 && (p != q || i != j)
    ensures NoOverlap(h.sent[p], i, h.sent[q], j)
    ensures l.base <= h.sent[p].addrs[i] && h.sent[p].addrs[i] + h.sent[p].sizes[i] <= l.base + 0x1000
  {
    assert IsCommand(h.sent[p], l, pairs, p) && IsCommand(h.sent[q], l, pairs, q);
    assert pairs[p / 2].buf < |carrier|;
    if p / 2 != q / 2 {
      LiveIs(h);
      var f, g := p - p % 2 + 1, q - q % 2 + 1;
      assert f in h.live && f % 2 == 1 && f / 2 == p / 2;
      assert g in h.live && g % 2 == 1 && g / 2 == q / 2;
      assert carrier[pairs[f / 2].buf] == f && carrier[pairs[g / 2].buf] == g;
      assert pairs[p / 2].buf != pairs[q / 2].buf;
    }
  }
}
