/** The growable hash table behind the CNID database (virtio/hashtab.c): linear probing over a table
    of 16-byte entries, whose keys and values are inline when at most 4 bytes long and otherwise sit
    in a bump-allocated blob. Here is its memory as a value, what it means, and why each kind of
    update keeps that meaning; HashTableOps.dfy has the routines. */
module HashTable {
  import opened Words

  /** A database key: the tag and the key bytes. */
  datatype Key = Key(tag: int, bytes: seq<byte>)

  /** `key` and `val` are the two four-byte unions: either the inline bytes, or a big-endian offset
      into the blob. `klen == 0` marks an empty slot. */
  datatype Entry = Entry(key: seq<byte>, val: seq<byte>, klen: nat, vlen: nat, tag: int)

  /** `used` is tableused and `bump` is blobused; tablesize and blobsize are the two lengths. */
  datatype Memory = Memory(slots: seq<Entry>, blob: seq<byte>, used: nat, bump: nat)

  const ZEROS: seq<byte> := [0, 0, 0, 0]
  const EMPTY := Entry(ZEROS, ZEROS, 0, 0, 0)

  // ------------------------------------------------------------------ unions

  function Offset(word: seq<byte>): nat
    requires |word| == 4
  {
    ((word[0] as int * 256 + word[1] as int) * 256 + word[2] as int) * 256 + word[3] as int
  }

  function OfOffset(n: nat): (word: seq<byte>)
    requires n < U32
    ensures |word| == 4 && Offset(word) == n
  {
    var hi, lo := n / 0x1_0000, n % 0x1_0000;
    [hi / 256, hi % 256, lo / 256, lo % 256]
  }

  /** memcpy of at most four bytes into a union. */
  function Inlined(word: seq<byte>, data: seq<byte>): (w: seq<byte>)
    requires |word| == 4 && |data| <= 4
    ensures |w| == 4 && w[..|data|] == data
  {
    data + word[|data|..]
  }

  /** `(bytes + 7) & -8`. */
  function Round8(n: nat): (m: nat)
    ensures n <= m < n + 8 && m % 8 == 0
    ensures n % 8 == 0 ==> m == n
  {
    assert Pow2(3) == 8;
    AndMask(n + 7, 3);
    ClearLow(n + 7, 3)
  }

  // ------------------------------------------------------- reading an entry

  /** The two things an entry stores; `v` selects the value rather than the key. */
  function Len(e: Entry, v: bool): nat { if v then e.vlen else e.klen }

  function Word(e: Entry, v: bool): seq<byte> { if v then e.val else e.key }

  predicate Outside(e: Entry, v: bool) { Len(e, v) > 4 }

  ghost predicate Full(e: Entry) { e.klen != 0 }

  ghost predicate Placed(e: Entry, v: bool, bump: nat)
    requires |Word(e, v)| == 4
  {
    Outside(e, v) ==> Offset(Word(e, v)) % 8 == 0 && Offset(Word(e, v)) + Round8(Len(e, v)) <= bump
  }

  ghost predicate EntryOk(e: Entry, bump: nat) {
    |e.key| == 4 && |e.val| == 4 && (Full(e) ==> Placed(e, false, bump) && Placed(e, true, bump))
  }

  /** The bytes of an entry's key or value: entrykey and entryval. */
  function Bytes(e: Entry, v: bool, blob: seq<byte>): (s: seq<byte>)
    requires |Word(e, v)| == 4 && (Outside(e, v) ==> Offset(Word(e, v)) + Len(e, v) <= |blob|)
    ensures |s| == Len(e, v)
  {
    if Outside(e, v) then blob[Offset(Word(e, v))..Offset(Word(e, v)) + Len(e, v)]
    else Word(e, v)[..Len(e, v)]
  }

  ghost predicate Apart(e: Entry, v: bool, f: Entry, w: bool)
    requires |Word(e, v)| == 4 && |Word(f, w)| == 4
  {
    Outside(e, v) && Outside(f, w) ==>
      || Offset(Word(e, v)) + Round8(Len(e, v)) <= Offset(Word(f, w))
      || Offset(Word(f, w)) + Round8(Len(f, w)) <= Offset(Word(e, v))
  }

  // ------------------------------------------------------------------ hashing

  function HashOf(tag: int, key: seq<byte>): (h: nat)
    ensures h < U32
  {
    if |key| == 0 then tag % U32 else (HashOf(tag, key[..|key| - 1]) * 31 + key[|key| - 1]) % U32
  }

  function HashKey(k: Key): (h: nat) { HashOf(k.tag, k.bytes) }

  /** Table sizes are powers of two (of 32 bits). */
  ghost predicate TableSize(size: nat) {
    exists k: nat :: k <= 31 && size == Pow2(k)
  }

  /** The slot tried in step `i` from hash `h`: `(start + i) & (tablesize - 1)`. */
  function Probe(h: nat, i: nat, size: nat): (p: nat)
    requires TableSize(size)
    ensures p < size
  {
    ProbeIsMod(h, i, size);
    And((h + i) % U32, size - 1)
  }

  lemma ProbeIsMod(h: nat, i: nat, size: nat)
    requires TableSize(size)
    ensures size > 0 && And((h + i) % U32, size - 1) == (h + i) % size
  {
    var k: nat :| k <= 31 && size == Pow2(k);
    AndMask((h + i) % U32, k);
    Pow2Add(k, 32 - k);
    Pow2Of32();
    ModMod(h + i, size, Pow2(32 - k));
  }

  lemma Pow2Of32()
    ensures Pow2(32) == U32
  {
    assert Pow2(8) == 256;
    Pow2Add(8, 8);
    Pow2Add(16, 16);
  }

  /** Every slot is tried within one trip round the table. */
  lemma ProbeReaches(h: nat, j: nat, size: nat) returns (i: nat)
    requires TableSize(size) && j < size
    ensures i < size && Probe(h, i, size) == j
  {
    i := ShiftTo(h, j, size);
    ProbeIsMod(h, i, size);
  }

  // ---------------------------------------------------------------- invariant

  ghost function FullSlots(slots: seq<Entry>): (s: set<nat>)
    ensures forall i: nat :: i in s <==> i < |slots| && Full(slots[i])
    ensures |s| <= |slots|
  {
    var s := set i: nat | i < |slots| && Full(slots[i]);
    SubsetOfRange(s, |slots|);
    s
  }

  lemma {:induction false} SubsetOfRange(s: set<nat>, n: nat)
    requires forall i :: i in s ==> i < n
    ensures |s| <= n
  {
    if n == 0 {
      assert s == {};
    } else {
      SubsetOfRange(s - {n - 1}, n - 1);
    }
  }

  ghost predicate Layout(m: Memory) {
    && |m.blob| % 8 == 0 && m.bump % 8 == 0 && m.bump <= |m.blob| < U32
    && (forall i :: 0 <= i < |m.slots| ==> EntryOk(m.slots[i], m.bump))
    && (forall i, j, v, w ::
          0 <= i < |m.slots| && 0 <= j < |m.slots| && (i != j || v != w) && Full(m.slots[i]) && Full(m.slots[j]) ==>
            Apart(m.slots[i], v, m.slots[j], w))
  }

  function KeyAt(m: Memory, i: nat): Key
    requires i < |m.slots| && EntryOk(m.slots[i], m.bump) && m.bump <= |m.blob| && Full(m.slots[i])
  {
    Key(m.slots[i].tag, Bytes(m.slots[i], false, m.blob))
  }

  function ValueAt(m: Memory, i: nat): seq<byte>
    requires i < |m.slots| && EntryOk(m.slots[i], m.bump) && m.bump <= |m.blob| && Full(m.slots[i])
  {
    Bytes(m.slots[i], true, m.blob)
  }

  /** Slot `j` is tried in step `d` from hash `h`, and only full slots are tried before it. */
  ghost predicate OnPath(slots: seq<Entry>, h: nat, d: nat, j: nat)
    requires TableSize(|slots|)
  {
    Probe(h, d, |slots|) == j && forall i :: 0 <= i < d ==> Full(slots[Probe(h, i, |slots|)])
  }

  /** No empty slot lies on a stored key's probe path, and no key is stored twice. */
  ghost predicate Probing(m: Memory)
    requires Layout(m)
  {
    && (|m.slots| > 0 ==> TableSize(|m.slots|))
    && m.used == |FullSlots(m.slots)|
    && AllReachable(m)
    && Unique(m)
  }

  ghost predicate AllReachable(m: Memory)
    requires Layout(m) && (|m.slots| > 0 ==> TableSize(|m.slots|))
  {
    forall j: nat :: j < |m.slots| && Full(m.slots[j]) ==> Reachable(m, j)
  }

  ghost predicate Unique(m: Memory)
    requires Layout(m)
  {
    forall i: nat, j: nat ::
      i < |m.slots| && j < |m.slots| && Full(m.slots[i]) && Full(m.slots[j]) && KeyAt(m, i) == KeyAt(m, j) ==> i == j
  }

  ghost predicate Reachable(m: Memory, j: nat)
    requires Layout(m) && TableSize(|m.slots|) && j < |m.slots| && Full(m.slots[j])
  {
    exists d: nat :: d < |m.slots| && OnPath(m.slots, HashKey(KeyAt(m, j)), d, j)
  }

  ghost predicate Inv(m: Memory) { Layout(m) && Probing(m) }

  /** The memory stores exactly the finite map `c`. */
  ghost predicate Stores(m: Memory, c: map<Key, seq<byte>>)
    requires Layout(m)
  {
    && (forall i: nat :: i < |m.slots| && Full(m.slots[i]) ==> KeyAt(m, i) in c && c[KeyAt(m, i)] == ValueAt(m, i))
    && (forall k :: k in c ==> exists i: nat :: i < |m.slots| && Full(m.slots[i]) && KeyAt(m, i) == k)
  }

  // -------------------------------------------------------------------- find

  /** What find has established when it stops at step `d` in slot `j`: nothing before was the key. */
  ghost predicate Searched(m: Memory, k: Key, d: nat)
    requires Layout(m) && (d > 0 ==> TableSize(|m.slots|))
  {
    forall i: nat :: i < d ==>
      var p := Probe(HashKey(k), i, |m.slots|);
      Full(m.slots[p]) && KeyAt(m, p) != k
  }

  /** If the key is stored at all, find meets it before any empty slot. */
  lemma StoredIsFound(m: Memory, k: Key, d: nat, j: nat)
    requires Inv(m) && |m.slots| > 0 && Searched(m, k, d)
    requires j < |m.slots| && Full(m.slots[j]) && KeyAt(m, j) == k
    ensures d < |m.slots|
    ensures var p := Probe(HashKey(k), d, |m.slots|);
            Full(m.slots[p]) && (KeyAt(m, p) == k ==> p == j)
  {
    var h := HashKey(k);
    var e: nat :| e < |m.slots| && OnPath(m.slots, h, e, j);
  }

  /** find fails only when every slot is full. */
  lemma ExhaustedIsFull(m: Memory, k: Key)
    requires Inv(m) && |m.slots| > 0 && Searched(m, k, |m.slots|)
    ensures m.used == |m.slots|
    ensures forall i: nat :: i < |m.slots| ==> Full(m.slots[i]) && KeyAt(m, i) != k
  {
    forall j: nat | j < |m.slots| ensures Full(m.slots[j]) && KeyAt(m, j) != k {
      var i := ProbeReaches(HashKey(k), j, |m.slots|);
    }
    AllFull(m.slots, |m.slots|, FullSlots(m.slots));
  }

  lemma {:induction false} AllFull(slots: seq<Entry>, n: nat, s: set<nat>)
    requires forall i: nat :: i in s <==> i < n
    ensures |s| == n
  {
    if n == 0 {
      assert s == {};
    } else {
      AllFull(slots, n - 1, s - {n - 1});
    }
  }

  // ----------------------------------------------------------------- updates

  /** `m'` differs from `m` in slot `j`, and in blob bytes no other entry uses. */
  ghost predicate Updates(m: Memory, j: nat, m': Memory) {
    && j < |m.slots| && |m'.slots| == |m.slots|
    && (forall i :: 0 <= i < |m.slots| && i != j ==> m'.slots[i] == m.slots[i])
    && m.bump <= m'.bump
    && Layout(m) && Layout(m')
    && (forall i, v :: 0 <= i < |m.slots| && i != j && Full(m.slots[i]) ==>
          Bytes(m'.slots[i], v, m'.blob) == Bytes(m.slots[i], v, m.blob))
  }

  /** Slots only ever go from empty to full, so a probe path stays good. */
  lemma StillReachable(m: Memory, j: nat, m': Memory, i: nat)
    requires Inv(m) && Updates(m, j, m') && Full(m'.slots[j])
    requires i < |m.slots| && Full(m.slots[i]) && KeyAt(m', i) == KeyAt(m, i)
    ensures Reachable(m', i)
  {
    var h := HashKey(KeyAt(m, i));
    assert Reachable(m, i);
    var d: nat :| d < |m.slots| && OnPath(m.slots, h, d, i);
    assert OnPath(m'.slots, h, d, i);
  }

  lemma CountAfter(m: Memory, j: nat, m': Memory)
    requires Updates(m, j, m') && Full(m'.slots[j])
    ensures |FullSlots(m'.slots)| == |FullSlots(m.slots)| + (if Full(m.slots[j]) then 0 else 1)
    ensures forall i: nat :: i < |m.slots| && i != j && Full(m.slots[i]) ==> KeyAt(m', i) == KeyAt(m, i)
  {
    if Full(m.slots[j]) {
      assert FullSlots(m'.slots) == FullSlots(m.slots);
    } else {
      assert FullSlots(m'.slots) == FullSlots(m.slots) + {j};
    }
  }

  lemma OverwriteKeepsInv(m: Memory, c: map<Key, seq<byte>>, j: nat, m': Memory)
    requires Inv(m) && Stores(m, c) && Updates(m, j, m')
    requires Full(m.slots[j]) && Full(m'.slots[j]) && KeyAt(m', j) == KeyAt(m, j) && m'.used == m.used
    ensures Inv(m') && Stores(m', c[KeyAt(m, j) := ValueAt(m', j)])
  {
    CountAfter(m, j, m');
    forall i: nat | i < |m.slots| && Full(m'.slots[i]) ensures Reachable(m', i) { StillReachable(m, j, m', i); }
    StoresAfter(m, c, KeyAt(m, j), j, m');
  }

  lemma StoresAfter(m: Memory, c: map<Key, seq<byte>>, k: Key, j: nat, m': Memory)
    requires Layout(m) && Stores(m, c) && Updates(m, j, m')
    requires Full(m'.slots[j]) && KeyAt(m', j) == k
    requires forall i: nat :: i < |m.slots| && i != j && Full(m.slots[i]) ==> KeyAt(m, i) != k
    requires Full(m.slots[j]) ==> KeyAt(m, j) == k
    ensures Stores(m', c[k := ValueAt(m', j)])
  {
    var c' := c[k := ValueAt(m', j)];
    forall i: nat | i < |m.slots| && Full(m'.slots[i]) ensures KeyAt(m', i) in c' && c'[KeyAt(m', i)] == ValueAt(m', i) {
      if i != j { assert KeyAt(m', i) == KeyAt(m, i) && ValueAt(m', i) == ValueAt(m, i); }
    }
    forall x | x in c' ensures exists i: nat :: i < |m'.slots| && Full(m'.slots[i]) && KeyAt(m', i) == x {
      if x == k {
        assert KeyAt(m', j) == x;
      } else {
        var i: nat :| i < |m.slots| && Full(m.slots[i]) && KeyAt(m, i) == x;
        assert KeyAt(m', i) == x;
      }
    }
  }

  lemma InsertKeepsInv(m: Memory, c: map<Key, seq<byte>>, k: Key, d: nat, j: nat, m': Memory)
    requires Inv(m) && Stores(m, c) && Updates(m, j, m')
    requires !Full(m.slots[j]) && Full(m'.slots[j]) && KeyAt(m', j) == k && m'.used == m.used + 1
    requires d < |m.slots| && Searched(m, k, d) && Probe(HashKey(k), d, |m.slots|) == j
    ensures k !in c
    ensures Inv(m') && Stores(m', c[k := ValueAt(m', j)])
  {
    NotStored(m, k, d);
    CountAfter(m, j, m');
    InsertProbing(m, k, d, j, m');
    InsertUnique(m, k, j, m');
    StoresAfter(m, c, k, j, m');
  }

  /** A search that ends in an empty slot proves the key is not stored. */
  lemma NotStored(m: Memory, k: Key, d: nat)
    requires Inv(m) && d < |m.slots| && Searched(m, k, d) && !Full(m.slots[Probe(HashKey(k), d, |m.slots|)])
    ensures forall i: nat :: i < |m.slots| && Full(m.slots[i]) ==> KeyAt(m, i) != k
  {
    forall i: nat | i < |m.slots| && Full(m.slots[i]) ensures KeyAt(m, i) != k {
      if KeyAt(m, i) == k { StoredIsFound(m, k, d, i); }
    }
  }

  lemma InsertProbing(m: Memory, k: Key, d: nat, j: nat, m': Memory)
    requires Inv(m) && Updates(m, j, m') && !Full(m.slots[j]) && Full(m'.slots[j]) && KeyAt(m', j) == k
    requires d < |m.slots| && Searched(m, k, d) && Probe(HashKey(k), d, |m.slots|) == j
    requires forall i: nat :: i < |m.slots| && Full(m.slots[i]) ==> KeyAt(m', i) == KeyAt(m, i)
    ensures AllReachable(m')
  {
    forall i: nat | i < |m.slots| && Full(m'.slots[i]) ensures Reachable(m', i) {
      if i == j {
        assert OnPath(m'.slots, HashKey(k), d, i);
      } else {
        StillReachable(m, j, m', i);
      }
    }
  }

  lemma InsertUnique(m: Memory, k: Key, j: nat, m': Memory)
    requires Layout(m) && Layout(m') && Unique(m) && Updates(m, j, m') && Full(m'.slots[j]) && KeyAt(m', j) == k
    requires forall i: nat :: i < |m.slots| && Full(m.slots[i]) ==> KeyAt(m', i) == KeyAt(m, i) && KeyAt(m, i) != k
    ensures Unique(m')
  {}

  // --------------------------------------------------- what HTinstall writes

  /** memcpy into the blob. */
  function Overlay(blob: seq<byte>, off: nat, data: seq<byte>): (b: seq<byte>)
    requires off + |data| <= |blob|
    ensures |b| == |blob| && b[off..off + |data|] == data
  {
    blob[..off] + data + blob[off + |data|..]
  }

  lemma OverlayElsewhere(blob: seq<byte>, off: nat, data: seq<byte>, lo: nat, hi: nat)
    requires off + |data| <= |blob| && lo <= hi <= |blob|
    requires hi <= off || off + |data| <= lo
    ensures Overlay(blob, off, data)[lo..hi] == blob[lo..hi]
  {
    var b := Overlay(blob, off, data);
    forall i | lo <= i < hi ensures b[i] == blob[i] {}
  }

  /** Where a new key or value goes: into the union, or to the end of the blob (store). */
  datatype Placement = Placement(word: seq<byte>, blob: seq<byte>, bump: nat)

  predicate Fits(data: seq<byte>, blob: seq<byte>, bump: nat) {
    |data| > 4 ==> bump + |data| <= |blob|
  }

  function Place(word: seq<byte>, data: seq<byte>, blob: seq<byte>, bump: nat): Placement
    requires |word| == 4 && bump <= |blob| < U32 && Fits(data, blob, bump)
  {
    if |data| <= 4 then Placement(Inlined(word, data), blob, bump)
    else Placement(OfOffset(bump), Overlay(blob, bump, data), bump + Round8(|data|))
  }

  /** The value branch HTinstall takes for a key it finds: inline, in place, or at the end. */
  function Overwritten(m: Memory, j: nat, v: seq<byte>): Memory
    requires j < |m.slots| && EntryOk(m.slots[j], m.bump) && m.bump <= |m.blob| < U32
    requires |v| > 4 && |v| <= Round8(m.slots[j].vlen) ==> Offset(m.slots[j].val) + |v| <= |m.blob|
    requires |v| > Round8(m.slots[j].vlen) ==> Fits(v, m.blob, m.bump)
  {
    var e := m.slots[j].(vlen := |v|);
    if |v| <= 4 then
      m.(slots := m.slots[j := e.(val := Inlined(e.val, v))])
    else if |v| <= Round8(m.slots[j].vlen) then
      m.(slots := m.slots[j := e], blob := Overlay(m.blob, Offset(e.val), v))
    else
      var p := Place(e.val, v, m.blob, m.bump);
      m.(slots := m.slots[j := e.(val := p.word)], blob := p.blob, bump := p.bump)
  }

  /** The overwrites the code handles: a value kept inline must not be replaced by one of 5 to 8
      bytes, which would be taken to fit where the inline bytes, read as an offset, point. */
  predicate SafeOverwrite(old_vlen: nat, new_vlen: nat) {
    !(1 <= old_vlen <= 4 && 5 <= new_vlen <= 8)
  }

  lemma OverwriteUpdates(m: Memory, j: nat, v: seq<byte>)
    requires Layout(m) && j < |m.slots| && Full(m.slots[j]) && SafeOverwrite(m.slots[j].vlen, |v|)
    requires |v| > Round8(m.slots[j].vlen) ==> Fits(v, m.blob, m.bump)
    ensures |v| > 4 && |v| <= Round8(m.slots[j].vlen) ==> Offset(m.slots[j].val) + |v| <= |m.blob|
    ensures var m' := Overwritten(m, j, v);
            Updates(m, j, m') && Full(m'.slots[j]) && KeyAt(m', j) == KeyAt(m, j) && ValueAt(m', j) == v
  {
    if |v| <= 4 {
      OverwriteInline(m, j, v);
    } else if |v| <= Round8(m.slots[j].vlen) {
      OverwriteInPlace(m, j, v);
    } else {
      OverwriteAtEnd(m, j, v);
    }
  }

  /** Entry `e`, put in slot `j`, would share no blob byte with any other entry, nor its key with its
      value. */
  ghost predicate Separate(m: Memory, j: nat, e: Entry)
    requires Layout(m) && |e.key| == 4 && |e.val| == 4
  {
    && Apart(e, false, e, true) && Apart(e, true, e, false)
    && forall i, w, x :: 0 <= i < |m.slots| && i != j && Full(m.slots[i]) ==>
         Apart(m.slots[i], w, e, x) && Apart(e, x, m.slots[i], w)
  }

  lemma LayoutAfter(m: Memory, j: nat, e: Entry, m': Memory)
    requires Layout(m) && j < |m.slots| && EntryOk(e, m'.bump) && Separate(m, j, e)
    requires m' == m.(slots := m.slots[j := e], blob := m'.blob, bump := m'.bump, used := m'.used)
    requires |m'.blob| == |m.blob| && m.bump <= m'.bump <= |m.blob| && m'.bump % 8 == 0
    ensures Layout(m')
  {
    forall i, i', v, w | 0 <= i < |m.slots| && 0 <= i' < |m.slots| && (i != i' || v != w) &&
                         Full(m'.slots[i]) && Full(m'.slots[i'])
      ensures Apart(m'.slots[i], v, m'.slots[i'], w)
    {
      if i != j && i' != j { assert Apart(m.slots[i], v, m.slots[i'], w); }
    }
  }

  /** An entry that occupies no more than `f` did, in the same places. */
  ghost predicate Within(e: Entry, f: Entry) {
    && |e.key| == |e.val| == |f.key| == |f.val| == 4
    && forall v :: Outside(e, v) ==> Outside(f, v) && Word(e, v) == Word(f, v) && Round8(Len(e, v)) <= Round8(Len(f, v))
  }

  lemma WithinIsSeparate(m: Memory, j: nat, e: Entry)
    requires Layout(m) && j < |m.slots| && Full(m.slots[j]) && Within(e, m.slots[j])
    ensures EntryOk(e, m.bump) && Separate(m, j, e)
  {
    var f := m.slots[j];
    assert Apart(f, false, f, true) && Apart(f, true, f, false);
    assert Placed(f, false, m.bump) && Placed(f, true, m.bump);
    forall i, w, x | 0 <= i < |m.slots| && i != j && Full(m.slots[i])
      ensures Apart(m.slots[i], w, e, x) && Apart(e, x, m.slots[i], w)
    {
      assert Apart(m.slots[i], w, f, x) && Apart(f, x, m.slots[i], w);
    }
  }

  lemma OverwriteInline(m: Memory, j: nat, v: seq<byte>)
    requires Layout(m) && j < |m.slots| && Full(m.slots[j]) && |v| <= 4
    ensures var m' := Overwritten(m, j, v);
            Updates(m, j, m') && Full(m'.slots[j]) && KeyAt(m', j) == KeyAt(m, j) && ValueAt(m', j) == v
  {
    var m' := Overwritten(m, j, v);
    WithinIsSeparate(m, j, m'.slots[j]);
    LayoutAfter(m, j, m'.slots[j], m');
  }

  lemma OverwriteInPlace(m: Memory, j: nat, v: seq<byte>)
    requires Layout(m) && j < |m.slots| && Full(m.slots[j])
    requires 4 < |v| <= Round8(m.slots[j].vlen) && m.slots[j].vlen > 4
    ensures Offset(m.slots[j].val) + |v| <= |m.blob|
    ensures var m' := Overwritten(m, j, v);
            Updates(m, j, m') && Full(m'.slots[j]) && KeyAt(m', j) == KeyAt(m, j) && ValueAt(m', j) == v
  {
    assert Placed(m.slots[j], true, m.bump);
    InPlaceLayout(m, j, v);
    InPlaceKeepsBytes(m, j, v);
  }

  lemma RoundedWithin(n: nat, x: nat)
    requires n <= Round8(x)
    ensures Round8(n) <= Round8(x)
  {
    MultiplesApart(Round8(n), Round8(x));
  }

  lemma MultiplesApart(a: nat, b: nat)
    requires a % 8 == 0 && b % 8 == 0 && a < b + 8
    ensures a <= b
  {}

  lemma InPlaceLayout(m: Memory, j: nat, v: seq<byte>)
    requires Layout(m) && j < |m.slots| && Full(m.slots[j])
    requires 4 < |v| <= Round8(m.slots[j].vlen) && m.slots[j].vlen > 4
    requires Offset(m.slots[j].val) + |v| <= |m.blob|
    ensures Layout(Overwritten(m, j, v))
  {
    var m' := Overwritten(m, j, v);
    RoundedWithin(|v|, m.slots[j].vlen);
    WithinIsSeparate(m, j, m'.slots[j]);
    LayoutAfter(m, j, m'.slots[j], m');
  }

  /** Writing over a value disturbs nothing else that is stored. */
  lemma InPlaceKeepsBytes(m: Memory, j: nat, v: seq<byte>)
    requires Layout(m) && j < |m.slots| && Full(m.slots[j]) && Outside(m.slots[j], true)
    requires |v| <= Round8(m.slots[j].vlen) && Offset(m.slots[j].val) + |v| <= |m.blob|
    ensures forall i, w :: 0 <= i < |m.slots| && Full(m.slots[i]) && (i != j || !w) ==>
              Bytes(m.slots[i], w, Overlay(m.blob, Offset(m.slots[j].val), v)) == Bytes(m.slots[i], w, m.blob)
  {
    var off := Offset(m.slots[j].val);
    forall i, w | 0 <= i < |m.slots| && Full(m.slots[i]) && (i != j || !w)
      ensures Bytes(m.slots[i], w, Overlay(m.blob, off, v)) == Bytes(m.slots[i], w, m.blob)
    {
      var f := m.slots[i];
      if Outside(f, w) {
        assert Placed(f, w, m.bump) && Apart(m.slots[j], true, f, w);
        OverlayElsewhere(m.blob, off, v, Offset(Word(f, w)), Offset(Word(f, w)) + Len(f, w));
      }
    }
  }

  lemma RoundedFits(bump: nat, n: nat, size: nat)
    requires bump % 8 == 0 && size % 8 == 0 && bump + n <= size
    ensures bump + Round8(n) <= size && (bump + Round8(n)) % 8 == 0
  {
    SumOfMultiples(bump, Round8(n));
    MultiplesApart(bump + Round8(n), size);
  }

  lemma SumOfMultiples(a: nat, b: nat)
    requires a % 8 == 0 && b % 8 == 0
    ensures (a + b) % 8 == 0
  {}

  lemma OverwriteAtEnd(m: Memory, j: nat, v: seq<byte>)
    requires Layout(m) && j < |m.slots| && Full(m.slots[j])
    requires |v| > 4 && |v| > Round8(m.slots[j].vlen) && Fits(v, m.blob, m.bump)
    ensures var m' := Overwritten(m, j, v);
            Updates(m, j, m') && Full(m'.slots[j]) && KeyAt(m', j) == KeyAt(m, j) && ValueAt(m', j) == v
  {
    var m' := Overwritten(m, j, v);
    RoundedFits(m.bump, |v|, |m.blob|);
    AppendedIsSeparate(m, j, m'.slots[j], true, m'.bump);
    LayoutAfter(m, j, m'.slots[j], m');
    AppendKeepsBytes(m, v);
  }

  /** Placing entry `e`'s key or value (`x`) at the end of the blob keeps it apart from all others. */
  lemma AppendedIsSeparate(m: Memory, j: nat, e: Entry, x: bool, bump: nat)
    requires Layout(m) && j < |m.slots| && |e.key| == 4 && |e.val| == 4
    requires Outside(e, x) && Offset(Word(e, x)) == m.bump && bump == m.bump + Round8(Len(e, x))
    requires Outside(e, !x) ==>
               && Full(m.slots[j]) && Outside(m.slots[j], !x)
               && Word(e, !x) == Word(m.slots[j], !x) && Len(e, !x) == Len(m.slots[j], !x)
    ensures EntryOk(e, bump) && Separate(m, j, e)
  {
    assert Outside(e, !x) ==> Placed(m.slots[j], !x, m.bump);
    forall i, w, y | 0 <= i < |m.slots| && i != j && Full(m.slots[i])
      ensures Apart(m.slots[i], w, e, y) && Apart(e, y, m.slots[i], w)
    {
      assert Placed(m.slots[i], w, m.bump);
      if y != x && Outside(e, y) {
        assert Apart(m.slots[i], w, m.slots[j], y) && Apart(m.slots[j], y, m.slots[i], w);
      }
    }
  }

  /** Appending to the blob disturbs nothing stored in it. */
  lemma AppendKeepsBytes(m: Memory, v: seq<byte>)
    requires Layout(m) && m.bump + |v| <= |m.blob|
    ensures forall i, w :: 0 <= i < |m.slots| && Full(m.slots[i]) ==>
              Bytes(m.slots[i], w, Overlay(m.blob, m.bump, v)) == Bytes(m.slots[i], w, m.blob)
  {
    forall i, w | 0 <= i < |m.slots| && Full(m.slots[i])
      ensures Bytes(m.slots[i], w, Overlay(m.blob, m.bump, v)) == Bytes(m.slots[i], w, m.blob)
    {
      var f := m.slots[i];
      if Outside(f, w) {
        assert Placed(f, w, m.bump);
        OverlayElsewhere(m.blob, m.bump, v, Offset(Word(f, w)), Offset(Word(f, w)) + Len(f, w));
      }
    }
  }

  /** A new entry in the empty slot `j`: key first, then value. */
  function Inserted(m: Memory, j: nat, k: Key, v: seq<byte>): Memory
    requires j < |m.slots| && EntryOk(m.slots[j], m.bump) && m.bump <= |m.blob| < U32 && Fits(k.bytes, m.blob, m.bump)
    requires var p := Place(m.slots[j].key, k.bytes, m.blob, m.bump); p.bump <= |p.blob| && Fits(v, p.blob, p.bump)
  {
    var p := Place(m.slots[j].key, k.bytes, m.blob, m.bump);
    var q := Place(m.slots[j].val, v, p.blob, p.bump);
    Memory(m.slots[j := Entry(p.word, q.word, |k.bytes|, |v|, k.tag)], q.blob, m.used + 1, q.bump)
  }

  lemma InsertUpdates(m: Memory, j: nat, k: Key, v: seq<byte>)
    requires Layout(m) && j < |m.slots| && !Full(m.slots[j]) && |k.bytes| > 0 && Fits(k.bytes, m.blob, m.bump)
    requires var p := Place(m.slots[j].key, k.bytes, m.blob, m.bump); Fits(v, p.blob, p.bump)
    ensures var p := Place(m.slots[j].key, k.bytes, m.blob, m.bump); p.bump <= |p.blob|
    ensures var m' := Inserted(m, j, k, v);
            Updates(m, j, m') && Full(m'.slots[j]) && KeyAt(m', j) == k && ValueAt(m', j) == v
  {
    var e := m.slots[j];
    var p := Place(e.key, k.bytes, m.blob, m.bump);
    // As if the entry were first given its key and an empty value.
    var m1 := m.(slots := m.slots[j := Entry(p.word, e.val, |k.bytes|, 0, k.tag)], blob := p.blob, bump := p.bump);
    InsertKeyUpdates(m, j, k, m1);
    if |v| <= 4 { OverwriteInline(m1, j, v); } else { OverwriteAtEnd(m1, j, v); }
    InsertInTwo(m, j, k, v, m1);
  }

  lemma InsertInTwo(m: Memory, j: nat, k: Key, v: seq<byte>, m1: Memory)
    requires Layout(m) && j < |m.slots| && Fits(k.bytes, m.blob, m.bump)
    requires var p := Place(m.slots[j].key, k.bytes, m.blob, m.bump);
             p.bump <= |p.blob| && Fits(v, p.blob, p.bump) &&
             m1 == m.(slots := m.slots[j := Entry(p.word, m.slots[j].val, |k.bytes|, 0, k.tag)],
                      blob := p.blob, bump := p.bump)
    ensures Inserted(m, j, k, v) == Overwritten(m1, j, v).(used := m.used + 1)
  {}

  lemma InsertKeyUpdates(m: Memory, j: nat, k: Key, m': Memory)
    requires Layout(m) && j < |m.slots| && !Full(m.slots[j]) && |k.bytes| > 0 && Fits(k.bytes, m.blob, m.bump)
    requires var p := Place(m.slots[j].key, k.bytes, m.blob, m.bump);
             m' == m.(slots := m.slots[j := Entry(p.word, m.slots[j].val, |k.bytes|, 0, k.tag)],
                      blob := p.blob, bump := p.bump)
    ensures Updates(m, j, m') && Full(m'.slots[j]) && KeyAt(m', j) == k
  {
    var e := m'.slots[j];
    if |k.bytes| > 4 {
      AppendKeepsBytes(m, k.bytes);
      RoundedFits(m.bump, |k.bytes|, |m.blob|);
      AppendedIsSeparate(m, j, e, false, m'.bump);
    }
    LayoutAfter(m, j, e, m');
  }

  // ------------------------------------------------------------- which overwrites are safe

  /** Overwriting the value in slot j by v writes inside the blob and leaves every other key and value,
      and the slot's own key, as they were. (If v does not fit the code panics before writing.) */
  ghost predicate Sparing(m: Memory, j: nat, v: seq<byte>)
    requires Inv(m) && j < |m.slots| && Full(m.slots[j])
  {
    assert EntryOk(m.slots[j], m.bump);
    && (4 < |v| <= Round8(m.slots[j].vlen) ==> Offset(m.slots[j].val) + |v| <= |m.blob|)
    && ((|v| > Round8(m.slots[j].vlen) ==> Fits(v, m.blob, m.bump)) ==>
          forall i, w :: 0 <= i < |m.slots| && Full(m.slots[i]) && (i != j || !w) ==>
            SameBytes(m, Overwritten(m, j, v), i, w))
  }

  ghost predicate SameBytes(m: Memory, m': Memory, i: nat, w: bool)
    requires Layout(m) && i < |m.slots| && Full(m.slots[i])
  {
    assert EntryOk(m.slots[i], m.bump) && Placed(m.slots[i], w, m.bump);
    && |m'.slots| == |m.slots| && |m'.blob| == |m.blob|
    && Word(m'.slots[i], w) == Word(m.slots[i], w) && Len(m'.slots[i], w) == Len(m.slots[i], w)
    && Bytes(m.slots[i], w, m'.blob) == Bytes(m.slots[i], w, m.blob)
  }

  /** Slot j of m holds a value of old_vlen bytes, and v has new_vlen bytes. */
  ghost predicate AnOverwrite(m: Memory, j: nat, v: seq<byte>, old_vlen: nat, new_vlen: nat) {
    Inv(m) && j < |m.slots| && Full(m.slots[j]) && m.slots[j].vlen == old_vlen && |v| == new_vlen
  }

  /** The guard is exact: lengths pass it if and only if no overwrite of such lengths, in any memory and
      any slot, writes outside the blob or disturbs anything else stored. */
  lemma SafeExactly(old_vlen: nat, new_vlen: nat)
    ensures SafeOverwrite(old_vlen, new_vlen) <==>
            forall m, j, v :: AnOverwrite(m, j, v, old_vlen, new_vlen) ==> Sparing(m, j, v)
  {
    if SafeOverwrite(old_vlen, new_vlen) {
      forall m, j, v | AnOverwrite(m, j, v, old_vlen, new_vlen) ensures Sparing(m, j, v) {
        SafeIsSparing(m, j, v);
      }
    } else {
      var v := seq(new_vlen, i => 0 as byte);
      UnsafeOverwriteLosesData(old_vlen, v);
      TwoKeysInv(old_vlen);
      assert AnOverwrite(TwoKeys(old_vlen), 1, v, old_vlen, new_vlen);
    }
  }

  lemma SafeIsSparing(m: Memory, j: nat, v: seq<byte>)
    requires Inv(m) && j < |m.slots| && Full(m.slots[j]) && SafeOverwrite(m.slots[j].vlen, |v|)
    ensures Sparing(m, j, v)
  {
    assert Placed(m.slots[j], true, m.bump);
    if |v| > Round8(m.slots[j].vlen) ==> Fits(v, m.blob, m.bump) {
      OverwriteUpdates(m, j, v);
      var m' := Overwritten(m, j, v);
      forall i, w | 0 <= i < |m.slots| && Full(m.slots[i]) && (i != j || !w) ensures SameBytes(m, m', i, w) {
        UpdateSpares(m, j, m', i, w);
      }
    }
  }

  lemma UpdateSpares(m: Memory, j: nat, m': Memory, i: nat, w: bool)
    requires Updates(m, j, m') && Full(m'.slots[j]) && Full(m.slots[j]) && KeyAt(m', j) == KeyAt(m, j)
    requires |m'.blob| == |m.blob| && m'.slots[j].key == m.slots[j].key && m'.slots[j].klen == m.slots[j].klen
    requires i < |m.slots| && Full(m.slots[i]) && (i != j || !w)
    ensures SameBytes(m, m', i, w)
  {
    assert EntryOk(m.slots[i], m.bump) && Placed(m.slots[i], w, m.bump);
  }

  /** A table of two keys: [2] with a five-byte value at the start of the blob, and [1] with a value of
      n bytes, all zeros, kept inline. */
  function TwoKeys(n: nat): (m: Memory)
    ensures |m.slots| == 2 && m.slots[0] == Entry([2, 0, 0, 0], ZEROS, 1, 5, 0)
    ensures m.slots[1] == Entry([1, 0, 0, 0], ZEROS, 1, n, 0)
    ensures m.blob == [1, 1, 1, 1, 1, 0, 0, 0] && m.used == 2 && m.bump == 8
  {
    Memory([Entry([2, 0, 0, 0], ZEROS, 1, 5, 0), Entry([1, 0, 0, 0], ZEROS, 1, n, 0)],
           [1, 1, 1, 1, 1, 0, 0, 0], 2, 8)
  }

  lemma TwoKeysLayout(n: nat)
    requires n <= 4
    ensures Layout(TwoKeys(n))
    ensures KeyAt(TwoKeys(n), 0) == Key(0, [2]) && KeyAt(TwoKeys(n), 1) == Key(0, [1])
    ensures ValueAt(TwoKeys(n), 0) == [1, 1, 1, 1, 1]
  {
    var m := TwoKeys(n);
    assert Offset(ZEROS) == 0;
    assert Layout(m);
    assert m.slots[0].key[..1] == [2] && m.slots[1].key[..1] == [1];
    assert m.blob[0..5] == [1, 1, 1, 1, 1];
  }

  lemma TwoKeysInv(n: nat)
    requires n <= 4
    ensures Inv(TwoKeys(n))
  {
    var m := TwoKeys(n);
    TwoKeysLayout(n);
    assert Pow2(1) == 2;
    assert TableSize(2);
    OneByteHash(2);
    OneByteHash(1);
    ProbeIsMod(2, 0, 2);
    ProbeIsMod(1, 0, 2);
    assert OnPath(m.slots, HashKey(KeyAt(m, 0)), 0, 0) && OnPath(m.slots, HashKey(KeyAt(m, 1)), 0, 1);
    assert FullSlots(m.slots) == {0, 1};
  }

  /** Every overwrite the guard shuts out can lose data: here the value of the other key changes. */
  lemma UnsafeOverwriteLosesData(n: nat, v: seq<byte>)
    requires !SafeOverwrite(n, |v|) && v[0] != 1
    ensures Inv(TwoKeys(n)) && Full(TwoKeys(n).slots[0]) && Full(TwoKeys(n).slots[1])
    ensures !Sparing(TwoKeys(n), 1, v)
    ensures var m' := Overwritten(TwoKeys(n), 1, v);
            && m'.slots[0] == TwoKeys(n).slots[0] && Bytes(m'.slots[0], true, m'.blob) != ValueAt(TwoKeys(n), 0)
  {
    var m := TwoKeys(n);
    TwoKeysInv(n);
    TwoKeysLayout(n);
    assert Offset(ZEROS) == 0;
    assert Round8(n) == 8 by { RoundedSmall(n); }
    var m' := Overwritten(m, 1, v);
    assert m'.blob[0..5][0] == v[0];
    assert !SameBytes(m, m', 0, true);
  }

  lemma RoundedSmall(n: nat)
    requires 1 <= n <= 8
    ensures Round8(n) == 8
  {}

  lemma OneByteHash(b: byte)
    ensures HashOf(0, [b]) == b as int
  {
    assert [b][..0] == [];
  }

  // ------------------------------------------------------------------ growth

  /** The larger table `t` while HTallocate copies: it holds exactly the entries of slots below `i`. */
  ghost predicate Rehashed(m: Memory, i: nat, t: Memory, c: map<Key, seq<byte>>)
    requires Inv(m)
  {
    && i <= |m.slots| && |t.slots| > 0 && t.blob == m.blob && t.bump == m.bump
    && t.used == |FullSlots(m.slots[..i])|
    && Inv(t) && Stores(t, c)
    && CopiedFrom(m.slots, i, t.slots)
    && CopiedMap(m, i, c)
  }

  /** Every entry of the new table comes from a slot already copied. */
  ghost predicate CopiedFrom(slots: seq<Entry>, i: nat, newslots: seq<Entry>)
    requires i <= |slots|
  {
    forall p :: 0 <= p < |newslots| && Full(newslots[p]) ==> exists x: nat :: x < i && slots[x] == newslots[p]
  }

  ghost predicate CopiedMap(m: Memory, i: nat, c: map<Key, seq<byte>>)
    requires Layout(m) && i <= |m.slots|
  {
    && (forall x: nat :: x < i && Full(m.slots[x]) ==> KeyAt(m, x) in c && c[KeyAt(m, x)] == ValueAt(m, x))
    && (forall k :: k in c ==> exists x: nat :: x < i && Full(m.slots[x]) && KeyAt(m, x) == k)
  }

  lemma RehashStart(m: Memory, size: nat, t: Memory)
    requires Inv(m) && TableSize(size) && size > 0
    requires t == Memory(seq(size, i => EMPTY), m.blob, 0, m.bump)
    ensures Rehashed(m, 0, t, map[])
  {
    assert FullSlots(t.slots) == {};
    assert FullSlots(m.slots[..0]) == {};
  }

  /** The new table has room for whatever is still to be copied. */
  lemma RehashHasRoom(m: Memory, i: nat, t: Memory, c: map<Key, seq<byte>>, k: Key)
    requires Inv(m) && Rehashed(m, i, t, c) && m.used < |t.slots|
    ensures !Searched(t, k, |t.slots|)
  {
    assert FullSlots(m.slots[..i]) <= FullSlots(m.slots);
    SubsetCount(FullSlots(m.slots[..i]), FullSlots(m.slots));
    if Searched(t, k, |t.slots|) { ExhaustedIsFull(t, k); }
  }

  lemma {:induction false} SubsetCount(a: set<nat>, b: set<nat>)
    requires a <= b
    ensures |a| <= |b|
  {
    if x :| x in a { SubsetCount(a - {x}, b - {x}); }
  }

  /** The key that slot `i` is hashed under, whether or not the slot is full. */
  function CopyKey(m: Memory, i: nat): Key
    requires i < |m.slots| && EntryOk(m.slots[i], m.bump) && m.bump <= |m.blob|
  {
    Key(m.slots[i].tag, if m.slots[i].klen == 0 then [] else Bytes(m.slots[i], false, m.blob))
  }

  lemma CopyKeyIsNew(m: Memory, i: nat, t: Memory)
    requires Layout(m) && Unique(m) && Layout(t) && t.blob == m.blob && i < |m.slots|
    requires CopiedFrom(m.slots, i, t.slots)
    ensures forall p: nat :: p < |t.slots| && Full(t.slots[p]) ==> KeyAt(t, p) != CopyKey(m, i)
  {
    forall p: nat | p < |t.slots| && Full(t.slots[p]) ensures KeyAt(t, p) != CopyKey(m, i) {
      var x: nat :| x < i && m.slots[x] == t.slots[p];
      assert KeyAt(t, p) == KeyAt(m, x);
    }
  }

  /** Copying slot `i`, full or empty, to the first empty slot of its probe path. */
  lemma RehashStep(m: Memory, i: nat, t: Memory, c: map<Key, seq<byte>>, d: nat, t': Memory)
    returns (c': map<Key, seq<byte>>)
    requires Inv(m) && Rehashed(m, i, t, c) && i < |m.slots|
    requires d < |t.slots| && Searched(t, CopyKey(m, i), d)
    requires var p := Probe(HashKey(CopyKey(m, i)), d, |t.slots|);
             !Full(t.slots[p]) &&
             t' == t.(slots := t.slots[p := m.slots[i]], used := t.used + if Full(m.slots[i]) then 1 else 0)
    ensures Rehashed(m, i + 1, t', c')
  {
    var p := Probe(HashKey(CopyKey(m, i)), d, |t.slots|);
    CountPrefix(m.slots, i);
    CopiedOneMore(m.slots, i, t.slots, p);
    if Full(m.slots[i]) {
      c' := c[KeyAt(m, i) := ValueAt(m, i)];
      FullCopy(m, i, t, c, d, p, t');
    } else {
      c' := c;
      EmptyCopy(t, c, p, m.slots[i], t');
    }
    RehashedMap(m, i, c, c');
  }

  lemma CopiedOneMore(slots: seq<Entry>, i: nat, newslots: seq<Entry>, p: nat)
    requires i < |slots| && p < |newslots| && CopiedFrom(slots, i, newslots)
    ensures CopiedFrom(slots, i + 1, newslots[p := slots[i]])
  {
    var n := newslots[p := slots[i]];
    forall q | 0 <= q < |n| && Full(n[q]) ensures exists x: nat :: x < i + 1 && slots[x] == n[q] {
      if q == p {
        assert slots[i] == n[q];
      } else {
        var x: nat :| x < i && slots[x] == newslots[q];
        assert slots[x] == n[q];
      }
    }
  }

  lemma FullCopy(m: Memory, i: nat, t: Memory, c: map<Key, seq<byte>>, d: nat, p: nat, t': Memory)
    requires Inv(m) && Rehashed(m, i, t, c) && i < |m.slots| && Full(m.slots[i])
    requires d < |t.slots| && Searched(t, CopyKey(m, i), d) && p == Probe(HashKey(CopyKey(m, i)), d, |t.slots|)
    requires !Full(t.slots[p]) && t' == t.(slots := t.slots[p := m.slots[i]], used := t.used + 1)
    ensures Inv(t') && Stores(t', c[KeyAt(m, i) := ValueAt(m, i)])
  {
    CopySeparate(m, i, t, p);
    LayoutAfter(t, p, m.slots[i], t');
    InsertKeepsInv(t, c, KeyAt(m, i), d, p, t');
  }

  lemma RehashedMap(m: Memory, i: nat, c: map<Key, seq<byte>>, c': map<Key, seq<byte>>)
    requires Layout(m) && Unique(m) && i < |m.slots|
    requires c' == if Full(m.slots[i]) then c[KeyAt(m, i) := ValueAt(m, i)] else c
    requires CopiedMap(m, i, c)
    ensures CopiedMap(m, i + 1, c')
  {
    forall k | k in c' ensures exists x: nat :: x < i + 1 && Full(m.slots[x]) && KeyAt(m, x) == k {
      if k in c {
        var x: nat :| x < i && Full(m.slots[x]) && KeyAt(m, x) == k;
        assert x < i + 1 && KeyAt(m, x) == k;
      } else {
        assert KeyAt(m, i) == k;
      }
    }
  }

  /** Copying an empty entry over an empty slot changes nothing. */
  lemma EmptyCopy(t: Memory, c: map<Key, seq<byte>>, p: nat, e: Entry, t': Memory)
    requires Inv(t) && Stores(t, c) && p < |t.slots| && !Full(t.slots[p]) && !Full(e) && EntryOk(e, t.bump)
    requires t' == t.(slots := t.slots[p := e])
    ensures Inv(t') && Stores(t', c)
  {
    EmptyKeepsSlots(t, p, e, t');
    EmptyCounts(t.slots, p, e);
    forall i: nat | i < |t.slots| && Full(t'.slots[i]) ensures Reachable(t', i) { EmptyReachable(t, p, e, t', i); }
    EmptyStores(t, c, p, e, t');
  }

  lemma EmptyCounts(slots: seq<Entry>, p: nat, e: Entry)
    requires p < |slots| && !Full(slots[p]) && !Full(e)
    ensures FullSlots(slots[p := e]) == FullSlots(slots)
  {}

  lemma EmptyReachable(t: Memory, p: nat, e: Entry, t': Memory, i: nat)
    requires Layout(t) && Layout(t') && TableSize(|t.slots|) && p < |t.slots| && !Full(t.slots[p]) && !Full(e)
    requires t' == t.(slots := t.slots[p := e]) && i < |t.slots| && Full(t'.slots[i]) && Reachable(t, i)
    requires KeyAt(t', i) == KeyAt(t, i)
    ensures Reachable(t', i)
  {
    var d: nat :| d < |t.slots| && OnPath(t.slots, HashKey(KeyAt(t, i)), d, i);
    assert OnPath(t'.slots, HashKey(KeyAt(t, i)), d, i);
  }

  lemma EmptyKeepsSlots(t: Memory, p: nat, e: Entry, t': Memory)
    requires Layout(t) && p < |t.slots| && !Full(t.slots[p]) && !Full(e) && EntryOk(e, t.bump)
    requires t' == t.(slots := t.slots[p := e])
    ensures Layout(t')
    ensures forall i: nat :: i < |t.slots| && Full(t.slots[i]) ==>
              t'.slots[i] == t.slots[i] && KeyAt(t', i) == KeyAt(t, i) && ValueAt(t', i) == ValueAt(t, i)
  {}

  lemma EmptyStores(t: Memory, c: map<Key, seq<byte>>, p: nat, e: Entry, t': Memory)
    requires Layout(t) && Stores(t, c) && p < |t.slots| && !Full(t.slots[p]) && !Full(e) && EntryOk(e, t.bump)
    requires t' == t.(slots := t.slots[p := e])
    ensures Layout(t') && Stores(t', c)
  {
    EmptyKeepsSlots(t, p, e, t');
    forall k | k in c ensures exists i: nat :: i < |t'.slots| && Full(t'.slots[i]) && KeyAt(t', i) == k {
      var i: nat :| i < |t.slots| && Full(t.slots[i]) && KeyAt(t, i) == k;
      assert KeyAt(t', i) == k;
    }
  }

  lemma CountPrefix(slots: seq<Entry>, i: nat)
    requires i < |slots|
    ensures |FullSlots(slots[..i + 1])| == |FullSlots(slots[..i])| + if Full(slots[i]) then 1 else 0
  {
    if Full(slots[i]) {
      assert FullSlots(slots[..i + 1]) == FullSlots(slots[..i]) + {i};
    } else {
      assert FullSlots(slots[..i + 1]) == FullSlots(slots[..i]);
    }
  }

  lemma CopySeparate(m: Memory, i: nat, t: Memory, p: nat)
    requires Layout(m) && Layout(t) && i < |m.slots| && p < |t.slots| && CopiedFrom(m.slots, i, t.slots)
    requires Full(m.slots[i])
    ensures Separate(t, p, m.slots[i])
  {
    var e := m.slots[i];
    assert Apart(e, false, e, true) && Apart(e, true, e, false);
    forall q, w, x | 0 <= q < |t.slots| && q != p && Full(t.slots[q])
      ensures Apart(t.slots[q], w, e, x) && Apart(e, x, t.slots[q], w)
    {
      var y: nat :| y < i && m.slots[y] == t.slots[q];
      assert Apart(m.slots[y], w, e, x) && Apart(e, x, m.slots[y], w);
    }
  }

  /** When every slot has been copied the new table stores what the old one did. */
  lemma RehashDone(m: Memory, t: Memory, c: map<Key, seq<byte>>, old_c: map<Key, seq<byte>>)
    requires Inv(m) && Stores(m, old_c) && Rehashed(m, |m.slots|, t, c)
    ensures Inv(t) && Stores(t, old_c) && t.used == m.used
  {
    assert m.slots[..|m.slots|] == m.slots;
    SameMap(m, c, old_c);
  }

  lemma SameMap(m: Memory, c: map<Key, seq<byte>>, d: map<Key, seq<byte>>)
    requires Layout(m) && Stores(m, d) && CopiedMap(m, |m.slots|, c)
    ensures c == d
  {
    forall k | k in c || k in d ensures k in c && k in d && c[k] == d[k] {
      var x: nat :| x < |m.slots| && Full(m.slots[x]) && KeyAt(m, x) == k;
      assert c[KeyAt(m, x)] == ValueAt(m, x) && d[KeyAt(m, x)] == ValueAt(m, x);
    }
  }
}
