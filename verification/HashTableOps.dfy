/** The hash table's routines, updating the table and the blob in place (virtio/hashtab.c). The ghost
    map `contents` is what the table means; every routine says what it does to it. */
module HashTableOps {
  import opened Words
  import opened HashTable

  datatype Option<T> = None | Some(value: T)

  const ENTRY_BYTES: nat := 16
  const FIRST_SLOTS: nat := 4096
  const FIRST_BLOB: nat := 64 * 1024

  /** How HTinstall ends. `Panicked`: no room. `Wild`: it wrote outside the blob. */
  datatype Installed = Done | Panicked | Wild

  datatype Call = Install(tag: int, key: seq<byte>, val: seq<byte>) | Lookup(tag: int, key: seq<byte>)
                | Allocate(tableGranted: bool, blobGranted: bool)

  /** The map after the calls: the latest value installed under each key. */
  function Replay(c: map<Key, seq<byte>>, calls: seq<Call>): map<Key, seq<byte>> {
    if calls == [] then c
    else
      ReplayOne(Replay(c, calls[..|calls| - 1]), calls[|calls| - 1])
  }

  function ReplayOne(c: map<Key, seq<byte>>, call: Call): map<Key, seq<byte>> {
    if call.Install? then c[Key(call.tag, call.key) := call.val] else c
  }

  /** What a call is answered when the map is `c`; only lookups have an answer. */
  function AnswerTo(c: map<Key, seq<byte>>, call: Call): Option<seq<byte>> {
    if call.Lookup? && Key(call.tag, call.key) in c then Some(c[Key(call.tag, call.key)]) else None
  }

  /** So far each call was answered as the calls before it require. */
  ghost predicate AllAnswered(c: map<Key, seq<byte>>, calls: seq<Call>, answers: seq<Option<seq<byte>>>) {
    |answers| <= |calls| && forall i :: 0 <= i < |answers| ==> answers[i] == AnswerTo(Replay(c, calls[..i]), calls[i])
  }

  /** The call may be made when the map is `c`: an overwrite has to be a safe one. */
  predicate Safely(c: map<Key, seq<byte>>, call: Call) {
    call.Install? ==>
      && 0 < |call.key| < 0x8000 && |call.val| < 0x8000
      && (Key(call.tag, call.key) in c ==> SafeOverwrite(|c[Key(call.tag, call.key)]|, |call.val|))
  }

  class HashTab {
    var table: array<Entry>
    var tablesize: nat
    var tableused: nat
    var blob: array<byte>
    var blobsize: nat
    var blobused: nat
    ghost var contents: map<Key, seq<byte>>

    ghost function State(): Memory
      reads this, table, blob
    {
      Memory(table[..], blob[..], tableused, blobused)
    }

    ghost predicate Sound()
      reads this, table, blob
    {
      && tablesize == table.Length && blobsize == blob.Length
      && tablesize * ENTRY_BYTES < U32
      && Inv(State()) && Stores(State(), contents)
    }

    /** The same, kept folded. */
    ghost predicate Valid()
      reads this, table, blob
    {
      forall s: Seal {:trigger Unfold(s)} :: Unfold(s) ==> Sound()
    }

    /** Before the first HTallocate: no table, no blob. */
    constructor ()
      ensures Valid() && contents == map[] && tablesize == 0 && blobsize == 0
      ensures fresh(table) && fresh(blob) && tableused == 0 && blobused == 0
    {
      table := new Entry[0];
      blob := new byte[0];
      tablesize, tableused, blobsize, blobused := 0, 0, 0, 0;
      contents := map[];
      new;
      assert FullSlots(State().slots) == {};
    }

    /** The hash loop. */
    method Hash(tag: int, key: seq<byte>) returns (h: nat)
      ensures h == HashOf(tag, key)
    {
      h := tag % U32;
      for i := 0 to |key|
        invariant h == HashOf(tag, key[..i])
      {
        assert key[..i + 1][..i] == key[..i];
        h := (h * 31 + key[i]) % U32;
      }
      assert key[..|key|] == key;
    }

    /** The slot of the key if it is stored, else the empty slot where it would go, else (`NULL`)
        None, and then the table is full. */
    method Find(k: Key) returns (slot: Option<nat>, ghost d: nat)
      requires Sound()
      ensures slot.None? ==> tableused == tablesize && k !in contents
      ensures slot.Some? ==>
                && slot.value < tablesize && d < tablesize && Searched(State(), k, d)
                && slot.value == Probe(HashKey(k), d, tablesize)
                && (Full(table[slot.value]) <==> k in contents)
                && (Full(table[slot.value]) ==> KeyAt(State(), slot.value) == k)
    {
      var start := Hash(k.tag, k.bytes);
      var i := 0;
      while i < tablesize
        invariant i <= tablesize && Searched(State(), k, i)
      {
        var probe := And((start + i) % U32, tablesize - 1);
        assert probe == Probe(HashKey(k), i, tablesize);
        if table[probe].klen == 0 {
          Absent(State(), contents, k, i);
          return Some(probe), i;
        }
        var same := Matches(probe, k);
        if same {
          Present(State(), contents, probe);
          return Some(probe), i;
        }
        NotHere(State(), k, i);
        i := i + 1;
      }
      Exhausted(State(), contents, k);
      return None, 0;
    }

    method Matches(i: nat, k: Key) returns (same: bool)
      requires Sound() && i < tablesize && Full(table[i])
      ensures same <==> KeyAt(State(), i) == k
    {
      var stored := EntryKey(i);
      same := table[i].tag == k.tag && table[i].klen == |k.bytes| && stored == k.bytes;
    }

    /** entrykey, as the bytes it points at. */
    method EntryKey(i: nat) returns (s: seq<byte>)
      requires Sound() && i < tablesize && Full(table[i])
      ensures s == KeyAt(State(), i).bytes
    {
      var e := table[i];
      assert EntryOk(State().slots[i], blobused);
      if e.klen <= 4 {
        s := e.key[..e.klen];
      } else {
        s := blob[Offset(e.key)..Offset(e.key) + e.klen];
      }
    }

    /** entryval, as the bytes it points at. */
    method EntryVal(i: nat) returns (s: seq<byte>)
      requires Sound() && i < tablesize && Full(table[i])
      ensures s == ValueAt(State(), i)
    {
      var e := table[i];
      assert EntryOk(State().slots[i], blobused);
      if e.vlen <= 4 {
        s := e.val[..e.vlen];
      } else {
        s := blob[Offset(e.val)..Offset(e.val) + e.vlen];
      }
    }

    /** The latest value stored for the key, or None (`NULL`). */
    method HTlookup(tag: int, key: seq<byte>) returns (r: Option<seq<byte>>)
      requires Valid()
      ensures r == if Key(tag, key) in contents then Some(contents[Key(tag, key)]) else None
    {
      assert Unfold(Seal);
      var slot, _ := Find(Key(tag, key));
      if slot.None? || table[slot.value].klen == 0 {
        return None;
      }
      var v := EntryVal(slot.value);
      return Some(v);
    }

    /** memcpy into the blob. */
    method Memcpy(off: nat, data: seq<byte>)
      requires off + |data| <= blob.Length
      modifies blob
      ensures blob[..] == Overlay(old(blob[..]), off, data)
    {
      for i := 0 to |data|
        invariant blob[..] == Overlay(old(blob[..]), off, data[..i])
      {
        blob[off + i] := data[i];
      }
      assert data[..|data|] == data;
    }

    /** store: bump allocation. Panics (`!ok`) when the blob is too small. */
    method Store(data: seq<byte>) returns (ok: bool, off: nat)
      requires blobsize == blob.Length && blobused % 8 == 0
      modifies `blobused, blob
      ensures ok <==> old(blobused) + |data| <= blobsize
      ensures ok ==> off == old(blobused) && blobused == off + Round8(|data|) && blob[..] == Overlay(old(blob[..]), off, data)
    {
      if blobused + |data| > blobsize {
        return false, 0;
      }
      Memcpy(blobused, data);
      off := blobused;
      blobused := blobused + Round8(|data|);
      ok := true;
    }

    /** The union that refers to new data: inline, or an offset from store. */
    method PutWord(word: seq<byte>, data: seq<byte>) returns (ok: bool, word': seq<byte>)
      requires |word| == 4 && blobsize == blob.Length < U32 && blobused <= blobsize && blobused % 8 == 0
      modifies `blobused, blob
      ensures ok <==> Fits(data, old(blob[..]), old(blobused))
      ensures ok ==> Placement(word', blob[..], blobused) == Place(word, data, old(blob[..]), old(blobused))
    {
      if |data| <= 4 {
        return true, Inlined(word, data);
      }
      var off;
      ok, off := Store(data);
      word' := if ok then OfOffset(off) else word;
    }

    /** The branches of HTinstall for a key found in `slot`. */
    method WriteValue(slot: nat, v: seq<byte>) returns (ok: bool)
      requires slot < table.Length && EntryOk(table[slot], blobused) && blobused <= blobsize == blob.Length < U32
      requires blobused % 8 == 0
      requires 4 < |v| <= Round8(table[slot].vlen) ==> Offset(table[slot].val) + |v| <= blobsize
      modifies `blobused, table, blob
      ensures ok <==> (|v| > Round8(old(table[slot].vlen)) ==> Fits(v, old(blob[..]), old(blobused)))
      ensures ok ==> State() == Overwritten(old(State()), slot, v)
    {
      ok := true;
      var e := table[slot];
      if |v| <= 4 {
        table[slot] := e.(val := Inlined(e.val, v));
      } else if |v| <= Round8(e.vlen) {
        Memcpy(Offset(e.val), v);
      } else {
        var w;
        ok, w := PutWord(e.val, v);
        table[slot] := e.(val := w);
      }
      table[slot] := table[slot].(vlen := |v|);
    }

    /** The same, for any lengths: a value kept inline, read as an offset, may lie outside the blob. */
    method Overwrite(slot: nat, ghost k: Key, v: seq<byte>) returns (r: Installed)
      requires slot < table.Length && EntryOk(table[slot], blobused) && blobused <= blobsize == blob.Length < U32
      requires blobused % 8 == 0 && Full(table[slot]) && KeyAt(State(), slot) == k
      modifies `blobused, table, blob
      ensures var m := old(State());
              && (r == Panicked <==> |v| > Round8(m.slots[slot].vlen) && !Fits(v, m.blob, m.bump))
              && (r == Wild <==> 4 < |v| <= Round8(m.slots[slot].vlen) && Offset(m.slots[slot].val) + |v| > |m.blob|)
              && (r == Done ==> Replaced(m, slot, k, v))
    {
      if 4 < |v| <= Round8(table[slot].vlen) && Offset(table[slot].val) + |v| > blobsize {
        return Wild;
      }
      var ok := WriteValue(slot, v);
      r := if ok then Done else Panicked;
    }

    /** The branch of HTinstall for a key it does not find: a new entry in empty slot `slot`. */
    method WriteEntry(slot: nat, k: Key, v: seq<byte>) returns (ok: bool)
      requires slot < table.Length && EntryOk(table[slot], blobused) && blobused <= blobsize == blob.Length < U32
      requires blobused % 8 == 0 && blobsize % 8 == 0
      modifies `tableused, `blobused, table, blob
      ensures ok <==> RoomForNew(old(State()), k, v)
      ensures ok ==> CanInsert(old(State()), slot, k, v) && State() == Inserted(old(State()), slot, k, v)
    {
      ghost var m := State();
      tableused := tableused + 1;
      var e := table[slot];
      if |k.bytes| > 4 && blobused + |k.bytes| <= blobsize { RoundedFits(blobused, |k.bytes|, blobsize); }
      var w1, w2;
      ok, w1 := PutWord(e.key, k.bytes);
      if !ok { return; }
      ok, w2 := PutWord(e.val, v);
      table[slot] := Entry(w1, w2, |k.bytes|, |v|, k.tag);
      assert table[..] == m.slots[slot := table[slot]];
    }

    method Insert(slot: nat, k: Key, v: seq<byte>, ghost d: nat) returns (ok: bool)
      requires Sound() && slot < tablesize && !Full(table[slot]) && |k.bytes| > 0
      requires d < tablesize && Searched(State(), k, d) && Probe(HashKey(k), d, tablesize) == slot
      modifies `tableused, `blobused, `contents, table, blob
      ensures ok <==> RoomForNew(old(State()), k, v)
      ensures ok ==> Valid() && contents == old(contents)[k := v] && Added(old(State()), slot, k, v)
    {
      ghost var m, c := State(), contents;
      assert EntryOk(m.slots[slot], blobused);
      ok := WriteEntry(slot, k, v);
      contents := contents[k := v];
      if ok { AfterInsert(m, c, slot, k, v, d); }
    }

    lemma AfterInsert(m: Memory, c: map<Key, seq<byte>>, slot: nat, k: Key, v: seq<byte>, d: nat)
      requires Inv(m) && Stores(m, c) && Added(m, slot, k, v) && |k.bytes| > 0
      requires d < |m.slots| && Searched(m, k, d) && Probe(HashKey(k), d, |m.slots|) == slot
      requires tablesize == |m.slots| && blobsize == |m.blob| && tablesize * ENTRY_BYTES < U32 && contents == c[k := v]
      ensures Valid()
    {
      InsertUpdates(m, slot, k, v);
      InsertKeepsInv(m, c, k, d, slot, State());
    }

    /** The slot where HTinstall put the value. */
    ghost predicate Replaced(m: Memory, slot: nat, k: Key, v: seq<byte>)
      reads this, table, blob
    {
      && slot < |m.slots| && EntryOk(m.slots[slot], m.bump) && m.bump <= |m.blob| < U32
      && Full(m.slots[slot]) && KeyAt(m, slot) == k
      && (4 < |v| <= Round8(m.slots[slot].vlen) ==> Offset(m.slots[slot].val) + |v| <= |m.blob|)
      && (|v| > Round8(m.slots[slot].vlen) ==> Fits(v, m.blob, m.bump))
      && State() == Overwritten(m, slot, v)
    }

    /** The value of k, kept inline in this slot, points outside the blob when read as an offset. */
    ghost predicate PointsOutside(m: Memory, slot: nat, k: Key, v: seq<byte>) {
      && slot < |m.slots| && EntryOk(m.slots[slot], m.bump) && m.bump <= |m.blob|
      && Full(m.slots[slot]) && KeyAt(m, slot) == k
      && 4 < |v| <= Round8(m.slots[slot].vlen) && Offset(m.slots[slot].val) + |v| > |m.blob|
    }

    ghost predicate Added(m: Memory, slot: nat, k: Key, v: seq<byte>)
      reads this, table, blob
    {
      slot < |m.slots| && !Full(m.slots[slot]) && CanInsert(m, slot, k, v) && State() == Inserted(m, slot, k, v)
    }

    /** Stores a value under a non-empty key. It panics exactly when a new key finds every slot full or
        the bytes do not fit in the blob. Otherwise the table now means the old map with this one key
        changed, unless the overwrite is not a safe one; then the new memory is still given. */
    method HTinstall(tag: int, key: seq<byte>, val: seq<byte>) returns (r: Installed)
      requires Valid() && 0 < |key| < 0x8000 && |val| < 0x8000
      modifies `tableused, `blobused, `contents, table, blob
      ensures r == Panicked <==>
                if Key(tag, key) in old(contents) then
                  |val| > Round8(|old(contents)[Key(tag, key)]|) && !Fits(val, old(blob[..]), old(blobused))
                else
                  old(tableused) == tablesize || !RoomForNew(old(State()), Key(tag, key), val)
      ensures r == Wild ==> Key(tag, key) in old(contents) && !SafeOverwrite(|old(contents)[Key(tag, key)]|, |val|)
      ensures r == Wild ==> exists slot :: PointsOutside(old(State()), slot, Key(tag, key), val)
      ensures r == Done && (Key(tag, key) in old(contents) ==> SafeOverwrite(|old(contents)[Key(tag, key)]|, |val|)) ==>
                Valid() && contents == old(contents)[Key(tag, key) := val]
      ensures r == Done && Key(tag, key) in old(contents) ==> exists slot :: Replaced(old(State()), slot, Key(tag, key), val)
      ensures r == Done && Key(tag, key) !in old(contents) ==> exists slot :: Added(old(State()), slot, Key(tag, key), val)
    {
      assert Unfold(Seal);
      var k := Key(tag, key);
      var found, d := Find(k);
      if found.None? {
        return Panicked;
      }
      if table[found.value].klen != 0 {
        r := InstallOver(found.value, k, val);
      } else {
        NotAllFull(State(), found.value);
        var ok := Insert(found.value, k, val, d);
        r := if ok then Done else Panicked;
      }
    }

    method InstallOver(slot: nat, ghost k: Key, val: seq<byte>) returns (r: Installed)
      requires Sound() && slot < tablesize && Full(table[slot]) && KeyAt(State(), slot) == k
      modifies `blobused, `contents, table, blob
      ensures k in old(contents)
      ensures r == Panicked <==>
                |val| > Round8(|old(contents)[k]|) && !Fits(val, old(blob[..]), old(blobused))
      ensures r == Wild ==> !SafeOverwrite(|old(contents)[k]|, |val|) && PointsOutside(old(State()), slot, k, val)
      ensures r == Done && SafeOverwrite(|old(contents)[k]|, |val|) ==> Valid() && contents == old(contents)[k := val]
      ensures r == Done ==> Replaced(old(State()), slot, k, val)
    {
      ghost var m, c := State(), contents;
      StoredLength(m, c, slot);
      assert EntryOk(m.slots[slot], m.bump);
      r := Overwrite(slot, k, val);
      contents := contents[k := val];
      if r == Done && SafeOverwrite(m.slots[slot].vlen, |val|) {
        AfterOverwrite(m, c, slot, k, val);
      } else if SafeOverwrite(m.slots[slot].vlen, |val|) {
        SafeToWrite(m, slot, val);
      }
    }

    lemma AfterOverwrite(m: Memory, c: map<Key, seq<byte>>, slot: nat, k: Key, v: seq<byte>)
      requires Inv(m) && Stores(m, c) && Replaced(m, slot, k, v) && SafeOverwrite(m.slots[slot].vlen, |v|)
      requires tablesize == |m.slots| && blobsize == |m.blob| && tablesize * ENTRY_BYTES < U32 && contents == c[k := v]
      ensures Valid()
    {
      OverwriteMeans(m, c, slot, v);
    }

    /** The smallest power of two from 4096 up whose half exceeds the slots in use. */
    method ChooseTableSize() returns (s: nat)
      requires tableused < 0x1000_0000
      ensures TableSize(s) && s > 0 && FIRST_SLOTS <= s && 2 * tableused < s
      ensures s == FIRST_SLOTS || s <= 4 * tableused
    {
      s := FIRST_SLOTS;
      ghost var k: nat := 12;
      assert Pow2(12) == FIRST_SLOTS by { assert Pow2(6) == 64; Pow2Add(6, 6); }
      while s / 2 <= tableused
        invariant s == Pow2(k) && 12 <= k <= 31 && FIRST_SLOTS <= s
        invariant s == FIRST_SLOTS || s <= 4 * tableused
        decreases 31 - k
      {
        assert Pow2(30) == 0x4000_0000 by { assert Pow2(10) == 1024; Pow2Add(10, 10); Pow2Add(20, 10); }
        assert Pow2(31) == 0x8000_0000;
        s := s * 2;
        k := k + 1;
      }
    }

    method ChooseBlobSize() returns (s: nat)
      ensures FIRST_BLOB <= s && 2 * blobused < s && s % 8 == 0
      ensures s == FIRST_BLOB || s <= 4 * blobused
    {
      s := FIRST_BLOB;
      while s / 2 <= blobused
        invariant FIRST_BLOB <= s && s % 8 == 0 && (s == FIRST_BLOB || s <= 4 * blobused)
        decreases 2 * blobused + 1 - s
      {
        s := s * 2;
      }
    }

    /** The copying loop of HTallocate. */
    method Rehash(newtablesize: nat) returns (newtable: array<Entry>)
      requires Sound() && TableSize(newtablesize) && newtablesize > 0 && tableused < newtablesize
      ensures fresh(newtable) && newtable.Length == newtablesize
      ensures var t := State().(slots := newtable[..]); Inv(t) && Stores(t, contents)
    {
      newtable := new Entry[newtablesize](_ => EMPTY);
      ghost var m := State();
      ghost var t := Memory(newtable[..], m.blob, 0, m.bump);
      ghost var c: map<Key, seq<byte>> := map[];
      assert t.slots == seq(newtablesize, i => EMPTY);
      RehashStart(m, newtablesize, t);
      for i := 0 to tablesize
        invariant State() == m && fresh(newtable)
        invariant t.slots == newtable[..] && Rehashed(m, i, t, c)
      {
        ghost var d;
        var slot;
        slot, d := ProbeForEmpty(newtable, i, t, c);
        newtable[slot] := table[i];
        ghost var t' := t.(slots := newtable[..], used := t.used + if Full(m.slots[i]) then 1 else 0);
        c := RehashStep(m, i, t, c, d, t');
        t := t';
      }
      RehashDone(m, t, c, contents);
    }

    /** The inner loop: the first empty slot of the new table on the probe path of slot `i`'s key. */
    method ProbeForEmpty(newtable: array<Entry>, i: nat, ghost t: Memory, ghost c: map<Key, seq<byte>>)
      returns (slot: nat, ghost d: nat)
      requires Sound() && i < tablesize && tableused < newtable.Length
      requires t.slots == newtable[..] && Rehashed(State(), i, t, c)
      ensures d < newtable.Length && Searched(t, CopyKey(State(), i), d)
      ensures slot == Probe(HashKey(CopyKey(State(), i)), d, newtable.Length) && !Full(newtable[slot])
    {
      ghost var k := CopyKey(State(), i);
      CopyKeyIsNew(State(), i, t);
      RehashHasRoom(State(), i, t, c, k);
      var h := HashOfSlot(i);
      slot, d := FirstEmpty(newtable, h, k, t);
    }

    static method FirstEmpty(newtable: array<Entry>, h: nat, ghost k: Key, ghost t: Memory)
      returns (slot: nat, ghost d: nat)
      requires t.slots == newtable[..] && Layout(t) && TableSize(newtable.Length) && h == HashKey(k)
      requires !Searched(t, k, |t.slots|)
      requires forall p: nat :: p < |t.slots| && Full(t.slots[p]) ==> KeyAt(t, p) != k
      ensures d < newtable.Length && Searched(t, k, d)
      ensures slot == Probe(h, d, newtable.Length) && !Full(newtable[slot])
    {
      var probe := h;
      d := 0;
      ProbeStart(k, newtable.Length);
      while newtable[And(probe, newtable.Length - 1)].klen != 0
        invariant probe == (h + d) % U32 && d < newtable.Length
        invariant And(probe, newtable.Length - 1) == Probe(h, d, newtable.Length)
        invariant Searched(t, k, d)
        decreases newtable.Length - d
      {
        ProbeAgain(t, k, d);
        probe := NextProbe(probe, h, d);
        d := d + 1;
      }
      slot := And(probe, newtable.Length - 1);
    }

    method HashOfSlot(i: nat) returns (h: nat)
      requires Sound() && i < tablesize
      ensures EntryOk(table[i], blobused) && h == HashKey(CopyKey(State(), i))
    {
      assert EntryOk(State().slots[i], blobused);
      var key := [];
      if table[i].klen != 0 { key := EntryKey(i); }
      h := Hash(table[i].tag, key);
    }

    /** Grows the table and the blob as far as the Memory Manager grants it. The meaning of the table
        never changes; a granted table is less than half full. */
    method HTallocate(tableGranted: bool, blobGranted: bool)
      requires Valid()
      modifies this
      ensures Valid() && contents == old(contents)
      ensures tablesize >= old(tablesize) && blobsize >= old(blobsize)
      ensures tableGranted ==> 2 * tableused < tablesize || tableused >= 0x400_0000
      ensures !tableGranted ==> tablesize == old(tablesize)
      ensures blobGranted ==> 2 * blobused < blobsize || blobused >= 0x4000_0000
      ensures !blobGranted ==> blobsize == old(blobsize)
      ensures tableused == old(tableused) && blobused == old(blobused)
      ensures (table == old(table) || fresh(table)) && (blob == old(blob) || fresh(blob))
      ensures tablesize == old(tablesize) || tablesize == FIRST_SLOTS || tablesize <= 4 * tableused
      ensures blobsize == old(blobsize) || blobsize == FIRST_BLOB || blobsize <= 4 * blobused
    {
      GrowTable(tableGranted);
      var newblobsize := ChooseBlobSize();
      if newblobsize > blobsize {
        if blobGranted && newblobsize < U32 {
          GrowBlob(newblobsize);
        }
      }
    }

    /** The first half: a larger table, if it is granted. */
    method GrowTable(granted: bool)
      requires Valid()
      modifies `table, `tablesize
      ensures Valid() && (table == old(table) || fresh(table))
      ensures tablesize >= old(tablesize)
      ensures tablesize == old(tablesize) || tablesize == FIRST_SLOTS || tablesize <= 4 * tableused
      ensures granted ==> 2 * tableused < tablesize || tableused >= 0x400_0000
      ensures !granted ==> tablesize == old(tablesize)
    {
      assert Unfold(Seal);
      var newtablesize := ChooseTableSize();
      if newtablesize > tablesize {
        // NewPtrSysClear, which cannot grant more than an address space
        if granted && newtablesize * ENTRY_BYTES < U32 {
          var newtable := Rehash(newtablesize);
          SwapTable(newtable);
        }
      }
    }

    method SwapTable(newtable: array<Entry>)
      requires blobsize == blob.Length && newtable.Length * ENTRY_BYTES < U32
      requires var t := State().(slots := newtable[..]); Inv(t) && Stores(t, contents)
      modifies `table, `tablesize
      ensures Valid() && table == newtable && tablesize == newtable.Length
    {
      ghost var t := State().(slots := newtable[..]);
      table := newtable;
      tablesize := newtable.Length;
      assert State() == t;
    }

    /** NewHandleClear or SetHandleSize: the old bytes are kept. */
    method GrowBlob(newblobsize: nat)
      requires Valid() && blobsize < newblobsize < U32 && newblobsize % 8 == 0
      modifies `blob, `blobsize
      ensures Valid() && blobsize == newblobsize && fresh(blob)
    {
      assert Unfold(Seal);
      ghost var m := State();
      var b := new byte[newblobsize](_ => 0);
      for i := 0 to blobsize
        invariant blobsize == blob.Length && b != blob && State() == m
        invariant b[..i] == blob[..i]
      {
        b[i] := blob[i];
      }
      blob := b;
      blobsize := newblobsize;
      GrownBlobMeansSame(m, contents, State());
    }

    // ---------------------------------------------------------------- any mix of calls

    /** Calls one after another, until an HTinstall panics for want of room. Through rehashing, overwriting
        and growth every lookup returns the value last installed under its key. */
    method Session(calls: seq<Call>) returns (answers: seq<Option<seq<byte>>>, panicked: bool)
      requires Valid() && forall i :: 0 <= i < |calls| ==> Safely(Replay(contents, calls[..i]), calls[i])
      modifies this, table, blob
      ensures |answers| <= |calls| && (if panicked then |answers| < |calls| && calls[|answers|].Install? else |answers| == |calls|)
      ensures AllAnswered(old(contents), calls, answers)
      ensures !panicked ==> Valid() && contents == Replay(old(contents), calls)
    {
      answers, panicked := [], false;
      for i := 0 to |calls|
        invariant Valid() && |answers| == i && !panicked && contents == Replay(old(contents), calls[..i])
        invariant (table == old(table) || fresh(table)) && (blob == old(blob) || fresh(blob))
        invariant AllAnswered(old(contents), calls, answers)
      {
        assert calls[..i + 1][..i] == calls[..i];
        var answer;
        answer, panicked := OneCall(calls[i]);
        if panicked {
          return;
        }
        answers := answers + [answer];
      }
      assert calls[..|calls|] == calls;
    }

    method OneCall(call: Call) returns (answer: Option<seq<byte>>, panicked: bool)
      requires Valid() && Safely(contents, call)
      modifies this, table, blob
      ensures panicked ==> call.Install?
      ensures !panicked ==> Valid() && contents == ReplayOne(old(contents), call) && answer == AnswerTo(old(contents), call)
      ensures (table == old(table) || fresh(table)) && (blob == old(blob) || fresh(blob))
    {
      answer, panicked := None, false;
      match call {
        case Install(tag, key, val) =>
          var r := HTinstall(tag, key, val);
          panicked := r != Done;
        case Lookup(tag, key) =>
          answer := HTlookup(tag, key);
        case Allocate(tableGranted, blobGranted) =>
          HTallocate(tableGranted, blobGranted);
      }
    }
  }

  const ONES: seq<byte> := [1, 1, 1, 1, 1]
  const NINES: seq<byte> := [9, 9, 9, 9, 9]

  /** The memory after ONES is stored under key [1] in slot a and four zeros under key [2] in slot b of an
      unused blob. */
  ghost predicate TwoStored(m: Memory, a: nat, b: nat) {
    && a < |m.slots| && b < |m.slots| && a != b && m.bump == 8 && 8 <= |m.blob| < U32
    && m.slots[a].klen == 1 && m.slots[a].vlen == 5 && m.slots[a].tag == 0
    && |m.slots[a].key| == 4 && m.slots[a].key[..1] == [1] && m.slots[a].val == OfOffset(0)
    && m.slots[b].klen == 1 && m.slots[b].vlen == 4 && m.slots[b].tag == 0
    && |m.slots[b].key| == 4 && m.slots[b].key[..1] == [2] && m.slots[b].val == ZEROS
  }

  lemma TwoAreStored(m0: Memory, a: nat, m1: Memory, b: nat, m2: Memory)
    requires m0.bump == 0 && 8 <= |m0.blob|
    requires a < |m0.slots| && CanInsert(m0, a, Key(0, [1]), ONES) && m1 == Inserted(m0, a, Key(0, [1]), ONES)
    requires b < |m1.slots| && !Full(m1.slots[b]) && CanInsert(m1, b, Key(0, [2]), ZEROS) && m2 == Inserted(m1, b, Key(0, [2]), ZEROS)
    ensures TwoStored(m2, a, b)
  {
    assert Round8(5) == 8 by { RoundedSmall(5); }
  }

  /** Overwriting key [2] with five bytes changes the value of key [1]. */
  lemma FirstIsLost(m: Memory, a: nat, b: nat, m': Memory)
    requires TwoStored(m, a, b) && EntryOk(m.slots[b], m.bump) && m' == Overwritten(m, b, NINES)
    ensures EntryOk(m'.slots[a], m'.bump) && m'.bump <= |m'.blob| && Full(m'.slots[a])
    ensures KeyAt(m', a) == Key(0, [1]) && ValueAt(m', a) == NINES
  {
    assert Round8(4) == 8 && Round8(5) == 8 by { RoundedSmall(4); RoundedSmall(5); }
    assert Offset(ZEROS) == 0 && Offset(OfOffset(0)) == 0;
    assert m'.blob[0..5] == NINES;
  }

  /** How an unsafe overwrite loses data, on a table as HTallocate first makes it: a five-byte value is
      stored under key [1] and a four-byte one under key [2], which is then given five bytes. Afterwards
      the bytes under key [1] are those stored last under key [2]. */
  method LoseData() returns (t: HashTab, r: Installed, ghost a: nat)
    ensures r == Done && t.tablesize == FIRST_SLOTS && t.blobsize == FIRST_BLOB
    ensures var m := t.State();
            && a < |m.slots| && EntryOk(m.slots[a], m.bump) && m.bump <= |m.blob| && Full(m.slots[a])
            && KeyAt(m, a) == Key(0, [1]) && ValueAt(m, a) == NINES
  {
    ghost var b;
    t, a, b := StoreTwo();
    ghost var m := t.State();
    TwoStoredFacts(t, a, b);
    r := t.HTinstall(0, [2], NINES);
    ghost var slot :| t.Replaced(m, slot, Key(0, [2]), NINES);
    assert slot == b;
    FirstIsLost(m, a, b, t.State());
  }

  lemma BlobLength(t: HashTab)
    requires t.Valid()
    ensures |t.State().blob| == t.blobsize && |t.State().slots| == t.tablesize
  {
    assert Unfold(Seal);
  }

  lemma TwoStoredFacts(t: HashTab, a: nat, b: nat)
    requires t.Valid() && TwoStored(t.State(), a, b)
    ensures var m := t.State();
            && EntryOk(m.slots[b], m.bump) && Key(0, [2]) in t.contents && |t.contents[Key(0, [2])]| == 4
            && Offset(m.slots[b].val) == 0 && Round8(4) == 8 && Round8(5) == 8
            && (forall s: nat :: s < |m.slots| && EntryOk(m.slots[s], m.bump) && Full(m.slots[s]) && KeyAt(m, s) == Key(0, [2]) ==> s == b)
            && (forall s :: !t.PointsOutside(m, s, Key(0, [2]), NINES))
  {
    assert Unfold(Seal);
    var m := t.State();
    assert EntryOk(m.slots[b], m.bump) && KeyAt(m, b) == Key(0, [2]);
    StoredLength(m, t.contents, b);
    RoundedSmall(4);
    RoundedSmall(5);
    assert Offset(ZEROS) == 0;
  }

  /** Allocates, and makes the two calls of HTinstall that store the keys. */
  method InstallNew(t: HashTab, key: seq<byte>, val: seq<byte>) returns (ghost slot: nat)
    requires t.Valid() && 0 < |key| < 0x8000 && |val| < 0x8000 && Key(0, key) !in t.contents
    requires t.tableused < t.tablesize && RoomForNew(t.State(), Key(0, key), val)
    modifies t`tableused, t`blobused, t`contents, t.table, t.blob
    ensures t.Valid() && t.contents == old(t.contents)[Key(0, key) := val]
    ensures t.Added(old(t.State()), slot, Key(0, key), val)
  {
    ghost var m := t.State();
    var r := t.HTinstall(0, key, val);
    slot :| t.Added(m, slot, Key(0, key), val);
  }

  method StoreTwo() returns (t: HashTab, ghost a: nat, ghost b: nat)
    ensures fresh(t) && fresh(t.table) && fresh(t.blob)
    ensures t.Valid() && t.tablesize == FIRST_SLOTS && t.blobsize == FIRST_BLOB && TwoStored(t.State(), a, b)
  {
    t := new HashTab();
    t.HTallocate(true, true);
    BlobLength(t);
    ghost var m0 := t.State();
    a := InstallNew(t, [1], ONES);
    ghost var m1 := t.State();
    b := InstallNew(t, [2], ZEROS);
    TwoAreStored(m0, a, m1, b, t.State());
  }

  /** A new key and value fit in what is left of the blob. */
  ghost predicate RoomForNew(m: Memory, k: Key, v: seq<byte>) {
    Fits(k.bytes, m.blob, m.bump) && Fits(v, m.blob, if |k.bytes| > 4 then m.bump + Round8(|k.bytes|) else m.bump)
  }

  ghost predicate CanInsert(m: Memory, j: nat, k: Key, v: seq<byte>) {
    && j < |m.slots| && EntryOk(m.slots[j], m.bump) && m.bump <= |m.blob| < U32 && Fits(k.bytes, m.blob, m.bump)
    && var p := Place(m.slots[j].key, k.bytes, m.blob, m.bump);
       p.bump <= |p.blob| && Fits(v, p.blob, p.bump)
  }

  lemma GrownBlobMeansSame(m: Memory, c: map<Key, seq<byte>>, m': Memory)
    requires Inv(m) && Stores(m, c) && m' == m.(blob := m'.blob)
    requires |m.blob| <= |m'.blob| < U32 && m'.blob[..|m.blob|] == m.blob && |m'.blob| % 8 == 0
    ensures Inv(m') && Stores(m', c)
  {
    GrownBlobKeepsBytes(m, m');
    assert Layout(m');
    SameMeaning(m, c, m');
  }

  lemma GrownBlobKeepsBytes(m: Memory, m': Memory)
    requires Layout(m) && |m.blob| <= |m'.blob| && m'.blob[..|m.blob|] == m.blob
    ensures forall i, v :: 0 <= i < |m.slots| && Full(m.slots[i]) ==>
              Placed(m.slots[i], v, m.bump) && Bytes(m.slots[i], v, m'.blob) == Bytes(m.slots[i], v, m.blob)
  {
    forall i, v | 0 <= i < |m.slots| && Full(m.slots[i])
      ensures Placed(m.slots[i], v, m.bump) && Bytes(m.slots[i], v, m'.blob) == Bytes(m.slots[i], v, m.blob)
    {
      if Outside(m.slots[i], v) {
        var lo, hi := Offset(Word(m.slots[i], v)), Offset(Word(m.slots[i], v)) + Len(m.slots[i], v);
        forall x | lo <= x < hi ensures m'.blob[x] == m.blob[x] { assert m'.blob[..|m.blob|][x] == m'.blob[x]; }
      }
    }
  }

  lemma SameMeaning(m: Memory, c: map<Key, seq<byte>>, m': Memory)
    requires Inv(m) && Stores(m, c) && Layout(m') && m'.slots == m.slots && m'.used == m.used
    requires forall i: nat :: i < |m.slots| && Full(m.slots[i]) ==> KeyAt(m', i) == KeyAt(m, i) && ValueAt(m', i) == ValueAt(m, i)
    ensures Inv(m') && Stores(m', c)
  {
    SameProbing(m, m');
    forall k | k in c ensures exists i: nat :: i < |m.slots| && Full(m'.slots[i]) && KeyAt(m', i) == k {
      var i: nat :| i < |m.slots| && Full(m.slots[i]) && KeyAt(m, i) == k;
      assert KeyAt(m', i) == k;
    }
  }

  lemma SameProbing(m: Memory, m': Memory)
    requires Inv(m) && Layout(m') && m'.slots == m.slots && m'.used == m.used
    requires forall i: nat :: i < |m.slots| && Full(m.slots[i]) ==> KeyAt(m', i) == KeyAt(m, i)
    ensures Probing(m')
  {
    forall i: nat | i < |m.slots| && Full(m.slots[i]) ensures Reachable(m', i) {
      assert Reachable(m, i);
    }
  }

  lemma ProbeStart(k: Key, size: nat)
    requires TableSize(size)
    ensures HashKey(k) == (HashKey(k) + 0) % U32 && And(HashKey(k), size - 1) == Probe(HashKey(k), 0, size)
  {}

  lemma ProbeAgain(t: Memory, k: Key, d: nat)
    requires Layout(t) && TableSize(|t.slots|) && d < |t.slots| && Searched(t, k, d) && !Searched(t, k, |t.slots|)
    requires forall p: nat :: p < |t.slots| && Full(t.slots[p]) ==> KeyAt(t, p) != k
    requires Full(t.slots[Probe(HashKey(k), d, |t.slots|)])
    ensures Searched(t, k, d + 1) && d + 1 < |t.slots|
  {}

  /** `probe++`, on 32 bits. */
  function NextProbe(probe: nat, ghost h: nat, ghost d: nat): (p: nat)
    requires probe == (h + d) % U32
    ensures p == (h + (d + 1)) % U32
  {
    NextMod32(h + d);
    (probe + 1) % U32
  }

  lemma SafeToWrite(m: Memory, j: nat, v: seq<byte>)
    requires Layout(m) && j < |m.slots| && Full(m.slots[j]) && SafeOverwrite(m.slots[j].vlen, |v|)
    ensures EntryOk(m.slots[j], m.bump)
    ensures 4 < |v| <= Round8(m.slots[j].vlen) ==> Offset(m.slots[j].val) + |v| <= |m.blob|
  {
    assert Placed(m.slots[j], true, m.bump);
  }

  lemma OverwriteMeans(m: Memory, c: map<Key, seq<byte>>, j: nat, v: seq<byte>)
    requires Inv(m) && Stores(m, c) && j < |m.slots| && Full(m.slots[j]) && SafeOverwrite(m.slots[j].vlen, |v|)
    requires |v| > Round8(m.slots[j].vlen) ==> Fits(v, m.blob, m.bump)
    ensures 4 < |v| <= Round8(m.slots[j].vlen) ==> Offset(m.slots[j].val) + |v| <= |m.blob|
    ensures Inv(Overwritten(m, j, v)) && Stores(Overwritten(m, j, v), c[KeyAt(m, j) := v])
  {
    OverwriteUpdates(m, j, v);
    OverwriteKeepsInv(m, c, j, Overwritten(m, j, v));
  }

  lemma StoredLength(m: Memory, c: map<Key, seq<byte>>, j: nat)
    requires Layout(m) && Stores(m, c) && j < |m.slots| && Full(m.slots[j])
    ensures KeyAt(m, j) in c && |c[KeyAt(m, j)]| == m.slots[j].vlen
  {}

  lemma NotAllFull(m: Memory, j: nat)
    requires Inv(m) && j < |m.slots| && !Full(m.slots[j])
    ensures m.used < |m.slots|
  {
    var s := FullSlots(m.slots);
    AllFull(m.slots, |m.slots|, Span(0, |m.slots|));
    assert s <= Span(0, |m.slots|) - {j};
    SubsetCount(s, Span(0, |m.slots|) - {j});
  }

  lemma Present(m: Memory, c: map<Key, seq<byte>>, j: nat)
    requires Layout(m) && Stores(m, c) && j < |m.slots| && Full(m.slots[j])
    ensures KeyAt(m, j) in c
  {}

  lemma NotHere(m: Memory, k: Key, d: nat)
    requires Layout(m) && TableSize(|m.slots|) && Searched(m, k, d)
    requires var p := Probe(HashKey(k), d, |m.slots|); Full(m.slots[p]) && KeyAt(m, p) != k
    ensures Searched(m, k, d + 1)
  {}

  lemma Absent(m: Memory, c: map<Key, seq<byte>>, k: Key, d: nat)
    requires Inv(m) && Stores(m, c) && d < |m.slots| && Searched(m, k, d)
    requires !Full(m.slots[Probe(HashKey(k), d, |m.slots|)])
    ensures k !in c
  {
    NotStored(m, k, d);
  }

  lemma Exhausted(m: Memory, c: map<Key, seq<byte>>, k: Key)
    requires Inv(m) && Stores(m, c) && (|m.slots| > 0 ==> Searched(m, k, |m.slots|))
    ensures m.used == |m.slots| && k !in c
  {
    if |m.slots| > 0 { ExhaustedIsFull(m, k); } else { assert FullSlots(m.slots) == {}; }
  }
}
