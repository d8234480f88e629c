/** Opening, closing, resizing, reading and writing forks (virtio/device-9p.c), over a host that only
    this driver changes. */
module FileIO {
  import opened Words
  import opened ForkRings
  import opened HostFiles

  datatype OSErr = NoErr | ParamErr | TmfoErr | FnfErr | PermErr | WrPermErr | PosErr | EofErr | IoErr
                 | Browse(code: int) | Panic

  // ------------------------------------------------------------- host files

  /** The host's effect of writing `data` at offset `pos`: a gap reads as zeros, and writing no bytes
      changes nothing. */
  function Patch(f: File, pos: nat, data: File): (r: File)
    ensures |r| == if |data| == 0 || pos + |data| <= |f| then |f| else pos + |data|
  {
    if |data| == 0 then f
    else
      var base := if pos <= |f| then f else Resize(f, pos);
      base[..pos] + data + (if pos + |data| <= |base| then base[pos + |data|..] else [])
  }

  lemma PatchAt(f: File, pos: nat, data: File, i: nat)
    requires |data| > 0 && i < |Patch(f, pos, data)|
    ensures Patch(f, pos, data)[i] ==
            if pos <= i < pos + |data| then data[i - pos] else if i < |f| then f[i] else 0
  {}

  /** Two writes back to back are one write. */
  lemma PatchTwice(f: File, pos: nat, a: File, b: File)
    ensures Patch(Patch(f, pos, a), pos + |a|, b) == Patch(f, pos, a + b)
  {
    if |a| == 0 {
      assert a + b == b;
    } else if |b| == 0 {
      assert a + b == a;
    } else {
      var m := Patch(f, pos, a);
      var l, r := Patch(m, pos + |a|, b), Patch(f, pos, a + b);
      forall i: nat | i < |l| ensures l[i] == r[i] {
        PatchAt(m, pos + |a|, b, i);
        PatchAt(f, pos, a + b, i);
        if i < |m| { PatchAt(f, pos, a, i); }
      }
    }
  }

  // ---------------------------------------------------------- file positions

  /** Where a call starts: ioPosMode & 3 is fsAtMark, fsFromStart, fsFromLEOF or fsFromMark. */
  function Seek(mode: nat, mark: int, eof: int, offset: int): int {
    if mode % 4 == 0 then mark
    else if mode % 4 == 1 then offset
    else if mode % 4 == 2 then eof + offset
    else mark + offset
  }

  /** Catalogue numbers from here on are files'. */
  const FILE: int := 0x4000_0000

  datatype Trap = Read | Write | GetFPos | SetFPos

  // -------------------------------------------------------------- invariant

  /** `fcbs'` differs from `fcbs` only in the lengths and marks of blocks open on fork `f`. */
  ghost predicate OnlyLengths(fcbs: seq<Fcb>, fcbs': seq<Fcb>, f: Fork) {
    && |fcbs'| == |fcbs|
    && forall i :: 0 <= i < |fcbs| ==>
         && fcbs'[i] == fcbs[i].(eof := fcbs'[i].eof, mark := fcbs'[i].mark)
         && (!(IsOpen(fcbs[i]) && ForkOf(fcbs[i]) == f) ==> fcbs'[i] == fcbs[i])
  }

  lemma ToldIsSet(fcbs: seq<Fcb>, fcbs': seq<Fcb>, f: Fork, len: int)
    requires OnlyLengths(fcbs, fcbs', f)
    requires forall i :: 0 <= i < |fcbs| && IsOpen(fcbs[i]) && ForkOf(fcbs[i]) == f ==>
               fcbs'[i].eof == len && fcbs'[i].mark == if fcbs[i].mark > len then len else fcbs[i].mark
    ensures fcbs' == SetLength(fcbs, f, len)
  {
    forall i | 0 <= i < |fcbs| ensures fcbs'[i] == Shortened(fcbs[i], f, len) {}
  }

  lemma NewFileAgrees(fcbs: seq<Fcb>, host: map<Place, File>, file: Place)
    requires file !in host
    ensures Lengths(fcbs, host) ==> Lengths(fcbs, host[file := []])
  {
    if Lengths(fcbs, host) {
      forall i | 0 <= i < |fcbs| && IsOpen(fcbs[i]) ensures Agrees(fcbs[i], host[file := []]) { assert Agrees(fcbs[i], host); }
    }
  }

  /** Each block is open on what it was open on, or closed. */
  ghost predicate SameBlocks(fcbs: seq<Fcb>, fcbs': seq<Fcb>) {
    |fcbs'| == |fcbs| && forall i :: 0 <= i < |fcbs| && IsOpen(fcbs'[i]) ==> SameBlock(fcbs[i], fcbs'[i])
  }

  predicate SameBlock(b: Fcb, b': Fcb) {
    IsOpen(b) && ForkOf(b') == ForkOf(b) && b'.file == b.file
  }

  lemma FromKept(fcbs: seq<Fcb>, fcbs': seq<Fcb>, number: Place -> int, known: set<Opening>)
    requires From(fcbs, number, known) && SameBlocks(fcbs, fcbs')
    ensures From(fcbs', number, known)
  {
    forall i | 0 <= i < |fcbs'| && IsOpen(fcbs'[i]) ensures exists o :: o in known && OpenedAs(fcbs'[i], number, o) {
      assert SameBlock(fcbs[i], fcbs'[i]);
      var o :| o in known && OpenedAs(fcbs[i], number, o);
      assert OpenedAs(fcbs'[i], number, o);
    }
  }

  lemma FromMore(fcbs: seq<Fcb>, fcbs': seq<Fcb>, number: Place -> int, known: set<Opening>, x: int, o: Opening)
    requires From(fcbs, number, known) && 0 <= x < |fcbs| == |fcbs'| && o in known && OpenedAs(fcbs'[x], number, o)
    requires forall i :: 0 <= i < |fcbs| && i != x ==> fcbs'[i] == fcbs[i].(link := fcbs'[i].link)
    ensures From(fcbs', number, known)
  {
    forall i | 0 <= i < |fcbs'| && IsOpen(fcbs'[i]) ensures exists o :: o in known && OpenedAs(fcbs'[i], number, o) {
      if i != x {
        var p :| p in known && OpenedAs(fcbs[i], number, p);
        assert OpenedAs(fcbs'[i], number, p);
      }
    }
  }

  class Volume {
    const fcbs: array<Fcb>
    const max9: nat
    const number: Place -> int  // the catalogue number of a file
    const folders: set<Place>   // directories of the host that are named as a file might be
    var host: map<Place, File>
    ghost var rings: map<Fork, seq<nat>>

    ghost predicate Valid()
      reads this, fcbs
    {
      max9 > 0 && Rings(fcbs[..], rings) && Openings(fcbs[..], host)
    }

    /** A table in which none of our files is open, over any host. */
    constructor (table: seq<Fcb>, largest: nat, files: map<Place, File>, numbering: Place -> int, dirs: set<Place>)
      requires largest > 0 && forall i :: 0 <= i < |table| ==> !IsOpen(table[i])
      ensures Valid() && fresh(fcbs) && fcbs[..] == table && host == files && max9 == largest
      ensures number == numbering && folders == dirs
      ensures Lengths(fcbs[..], host) && From(fcbs[..], number, {})
    {
      fcbs := new Fcb[|table|](i requires 0 <= i < |table| => table[i]);
      max9, number, folders := largest, numbering, dirs;
      host := files;
      rings := map[];
      new;
      assert fcbs[..] == table;
    }

    // ----------------------------------------- the File Manager's FCB table

    /** The first free block, if any. */
    method UnivAllocateFCB() returns (err: OSErr, refNum: int)
      ensures err == NoErr || err == TmfoErr
      ensures err == NoErr ==> RefNumValid(refNum, fcbs.Length) && fcbs[IndexOf(refNum)].flNm == 0
      ensures err == NoErr ==> forall i :: 0 <= i < IndexOf(refNum) ==> fcbs[i].flNm != 0
      ensures err == TmfoErr ==> forall i :: 0 <= i < fcbs.Length ==> fcbs[i].flNm != 0
    {
      refNum := 2;
      ghost var n := 0;
      while refNum < Ref(fcbs.Length)
        invariant refNum == Ref(n) && n <= fcbs.Length
        invariant forall i :: 0 <= i < n ==> fcbs[i].flNm != 0
        decreases fcbs.Length - n
      {
        ValidRefs(refNum, fcbs.Length);
        if fcbs[IndexOf(refNum)].flNm == 0 {
          return NoErr, refNum;
        }
        refNum := refNum + FCB_BYTES;
        n := n + 1;
      }
      return TmfoErr, refNum;
    }

    /** The next block open on our volume after `fileRefNum`, or from the start if that is zero. */
    method UnivIndexFCB(fileRefNum: int) returns (err: OSErr, refNum: int)
      requires fileRefNum == 0 || RefNumValid(fileRefNum, fcbs.Length)
      ensures err == NoErr || err == FnfErr
      ensures var from := if fileRefNum == 0 then 0 else IndexOf(fileRefNum) + 1;
              && (err == NoErr ==>
                    && RefNumValid(refNum, fcbs.Length) && from <= IndexOf(refNum) && IsOpen(fcbs[IndexOf(refNum)])
                    && forall i :: from <= i < IndexOf(refNum) ==> !IsOpen(fcbs[i]))
              && (err == FnfErr ==> forall i :: from <= i < fcbs.Length ==> !IsOpen(fcbs[i]))
    {
      ghost var from := if fileRefNum == 0 then 0 else IndexOf(fileRefNum) + 1;
      ValidRefs(fileRefNum, fcbs.Length);
      if fileRefNum == 0 {
        refNum := 2;
      } else {
        refNum := fileRefNum + FCB_BYTES;
      }
      ghost var n := from;
      while true
        invariant 0 <= from <= n <= fcbs.Length && refNum == Ref(n)
        invariant forall i :: from <= i < n ==> !IsOpen(fcbs[i])
        decreases fcbs.Length - n
      {
        ValidRefs(refNum, fcbs.Length);
        if !RefNumValid(refNum, fcbs.Length) {
          return FnfErr, refNum;
        }
        if fcbs[IndexOf(refNum)].flNm != 0 && fcbs[IndexOf(refNum)].ours {
          return NoErr, refNum;
        }
        refNum := refNum + FCB_BYTES;
        n := n + 1;
      }
    }

    // ------------------------------------------------------- any mix of calls

    /** Calls one after another, until one panics. A call on a block that is not open, or of a file that
        does not exist, does not reach the driver. Through them all every open block is in the ring of its
        fork; and if the forks opened are apart, it agrees with the host on its length. */
    method Session(calls: seq<Call>, ghost known: set<Opening>) returns (panicked: bool)
      requires Valid() && From(fcbs[..], number, known)
      requires forall i :: 0 <= i < |calls| && calls[i].Open? ==> Opening(calls[i].place, calls[i].rfork) in known
      modifies this, fcbs
      ensures panicked || (Valid() && From(fcbs[..], number, known))
      ensures !panicked && Apart(number, known) && old(Lengths(fcbs[..], host)) ==> Lengths(fcbs[..], host)
    {
      panicked := false;
      for i := 0 to |calls|
        invariant Valid() && !panicked && From(fcbs[..], number, known)
        invariant Apart(number, known) && old(Lengths(fcbs[..], host)) ==> Lengths(fcbs[..], host)
      {
        panicked := OneCall(calls[i], known);
        if panicked {
          return;
        }
      }
    }

    method OneCall(call: Call, ghost known: set<Opening>) returns (panicked: bool)
      requires Valid() && From(fcbs[..], number, known)
      requires call.Open? ==> Opening(call.place, call.rfork) in known
      modifies this, fcbs
      ensures panicked || (Valid() && From(fcbs[..], number, known))
      ensures !panicked && Apart(number, known) && old(Lengths(fcbs[..], host)) ==> Lengths(fcbs[..], host)
    {
      panicked := false;
      ghost var f0 := fcbs[..];
      if Apart(number, known) { ApartSeparates(f0, number, known); }
      match call {
        case Open(place, rfork, readOnly, statOk, createOk, statRsrcOk, rwOk, rdOk) =>
          OpenCall(place, rfork, readOnly, statOk, createOk, statRsrcOk, rwOk, rdOk, known);
        case Close(refNum) =>
          if Reaches(refNum) {
            CloseCall(refNum);
            FromKept(f0, fcbs[..], number, known);
          }
        case SetEOF(refNum, len) =>
          if Reaches(refNum) {
            SetEOFCall(refNum, len);
            FromKept(f0, fcbs[..], number, known);
          }
        case ReadWrite(trap, refNum, data, posMode, posOffset, useStackBuf) =>
          if Reaches(refNum) {
            panicked := ReadWriteCall(trap, refNum, data, posMode, posOffset, useStackBuf);
            if !panicked { FromKept(f0, fcbs[..], number, known); }
          }
      }
    }

    method CloseCall(refNum: int)
      requires Valid() && Reaches(refNum)
      modifies this, fcbs
      ensures Valid() && SameBlocks(old(fcbs[..]), fcbs[..]) && (old(Lengths(fcbs[..], host)) ==> Lengths(fcbs[..], host))
    {
      var _ := FsClose(refNum);
    }

    method SetEOFCall(refNum: int, len: nat)
      requires Valid() && Reaches(refNum)
      modifies this, fcbs
      ensures Valid() && SameBlocks(old(fcbs[..]), fcbs[..])
      ensures old(Separate(fcbs[..]) && Lengths(fcbs[..], host)) ==> Lengths(fcbs[..], host)
    {
      var _ := FsSetEOF(refNum, len);
    }

    method OpenCall(place: Place, rfork: bool, readOnly: bool, statOk: bool, createOk: bool, statRsrcOk: bool, rwOk: bool,
                    rdOk: bool, ghost known: set<Opening>)
      requires Valid() && From(fcbs[..], number, known) && Opening(place, rfork) in known
      modifies this, fcbs
      ensures Valid() && From(fcbs[..], number, known) && (old(Lengths(fcbs[..], host)) ==> Lengths(fcbs[..], host))
    {
      if place in host && number(place) >= FILE {
        ghost var f0 := fcbs[..];
        var err, refNum := FsOpen(place, number(place), rfork, readOnly, statOk, createOk, statRsrcOk, rwOk, rdOk);
        if err == NoErr {
          FromMore(f0, fcbs[..], number, known, IndexOf(refNum), Opening(place, rfork));
        }
      }
    }

    method ReadWriteCall(trap: Trap, refNum: int, data: File, posMode: nat, posOffset: int, useStackBuf: bool)
      returns (panicked: bool)
      requires Valid() && Reaches(refNum)
      modifies this, fcbs
      ensures !panicked ==> Valid() && SameBlocks(old(fcbs[..]), fcbs[..])
      ensures !panicked && old(Separate(fcbs[..]) && Lengths(fcbs[..], host)) ==> Lengths(fcbs[..], host)
    {
      var buf := new byte[|data|](j requires 0 <= j < |data| => data[j]);
      var err, _, _ := FsReadWrite(trap, refNum, buf, buf.Length, posMode, posOffset, useStackBuf);
      panicked := err == Panic;
    }

    /** A reference number that is not one at all, or that of a block open on our volume. */
    predicate Reaches(refNum: int)
      reads this, fcbs
    {
      RefNumValid(refNum, fcbs.Length) ==> IsOpen(fcbs[IndexOf(refNum)])
    }

    /** Two files any of whose forks the driver cannot tell apart as the host does: when both are open, a
        length set through the first leaves the second wrong. */
    method Clash(a: Opening, b: Opening) returns (x: nat, y: nat)
      requires Valid() && Lengths(fcbs[..], host) && !ToldApart(number, a, b)
      requires CanOpen(a) && CanOpen(b)
      requires exists i, j :: 0 <= i < j < fcbs.Length && fcbs[i].flNm == 0 && fcbs[j].flNm == 0
      modifies this, fcbs
      ensures Valid() && x < fcbs.Length && y < fcbs.Length && IsOpen(fcbs[x]) && IsOpen(fcbs[y])
      ensures OpenedAs(fcbs[x], number, a) && OpenedAs(fcbs[y], number, b)
      ensures fcbs[y].file in host && fcbs[y].eof != |host[fcbs[y].file]| && !Lengths(fcbs[..], host)
    {
      var first;
      first, x, y := OpenTwo(a, b);
      var len := |host[HostFile(b)]| + 1;
      ghost var before := fcbs[..];
      ClashDisagrees(before, host, x, y);
      var _ := FsSetEOF(first, len);
      assert fcbs[..][x] == Shortened(before[x], ForkOf(before[x]), len);
      assert fcbs[..][y] == Shortened(before[y], ForkOf(before[x]), len);
    }

    method OpenTwo(a: Opening, b: Opening) returns (first: int, x: nat, y: nat)
      requires Valid() && Lengths(fcbs[..], host) && CanOpen(a) && CanOpen(b)
      requires exists i, j :: 0 <= i < j < fcbs.Length && fcbs[i].flNm == 0 && fcbs[j].flNm == 0
      modifies this, fcbs
      ensures Valid() && Lengths(fcbs[..], host) && RefNumValid(first, fcbs.Length) && IndexOf(first) == x
      ensures x < fcbs.Length && y < fcbs.Length && IsOpen(fcbs[x]) && IsOpen(fcbs[y])
      ensures OpenedAs(fcbs[x], number, a) && OpenedAs(fcbs[y], number, b) && Agrees(fcbs[y], host)
    {
      ghost var i, j :| 0 <= i < j < fcbs.Length && fcbs[i].flNm == 0 && fcbs[j].flNm == 0;
      first, x := OpenFully(a);
      assert fcbs[if i == x then j else i].flNm == 0;
      var _, second := OpenFully(b);
      y := second;
    }

    /** fsOpen when the host allows everything. */
    method OpenFully(o: Opening) returns (refNum: int, x: nat)
      requires Valid() && Lengths(fcbs[..], host) && CanOpen(o) && exists i :: 0 <= i < fcbs.Length && fcbs[i].flNm == 0
      modifies this, fcbs
      ensures Valid() && Lengths(fcbs[..], host) && RefNumValid(refNum, fcbs.Length) && IndexOf(refNum) == x
      ensures x < fcbs.Length && old(fcbs[x]).flNm == 0 && IsOpen(fcbs[x]) && OpenedAs(fcbs[x], number, o) && Agrees(fcbs[x], host)
      ensures fcbs[x].mark == 0
      ensures forall i :: 0 <= i < fcbs.Length && i != x ==> fcbs[i] == old(fcbs[i]).(link := fcbs[i].link)
      ensures host == old(host) ||
                (o.resource && Sidecar(o.place) !in old(host) && host == old(host)[Sidecar(o.place) := []])
    {
      ghost var i :| 0 <= i < fcbs.Length && fcbs[i].flNm == 0;
      var err;
      err, refNum := FsOpen(o.place, number(o.place), o.resource, false, true, true, true, true, true);
      assert err == NoErr;
      ValidRefs(refNum, fcbs.Length);
      x := IndexOf(refNum);
    }

    /** What fsOpen needs of the host to open a fork, making its sidecar file if need be. */
    ghost predicate CanOpen(o: Opening)
      reads this
    {
      o.place in host && number(o.place) >= FILE && (o.resource ==> Sidecar(o.place) !in folders)
    }

    // ------------------------------------------------------- opening a fork

    /** fsOpen once browse has returned `cnid` and left the fid at `place`. The other arguments are the
        host's answers: to the two Getattr calls, to creating the sidecar file, and to opening it
        read-write and read-only. */
    method FsOpen(place: Place, cnid: int, rfork: bool, readOnly: bool,
                  statOk: bool, createOk: bool, statRsrcOk: bool, rwOk: bool, rdOk: bool)
      returns (err: OSErr, refNum: int)
      requires Valid() && cnid != 0
      requires cnid >= FILE ==> place in host && cnid == number(place)
      modifies this, fcbs
      ensures Valid() && (old(Lengths(fcbs[..], host)) ==> Lengths(fcbs[..], host))
      ensures host == old(host) ||
                (rfork && Sidecar(place) !in old(host) && host == old(host)[Sidecar(place) := []])
      ensures err != NoErr ==> fcbs[..] == old(fcbs[..]) && rings == old(rings)
      ensures err == NoErr ==>
                var x := IndexOf(refNum);
                && RefNumValid(refNum, fcbs.Length) && old(fcbs[x].flNm) == 0
                && IsOpen(fcbs[x]) && OpenedAs(fcbs[x], number, Opening(place, rfork)) && Agrees(fcbs[x], host)
                && fcbs[x].mark == 0 && (fcbs[x].write <==> !readOnly && rwOk)
                && forall i :: 0 <= i < fcbs.Length && i != x ==> fcbs[i] == old(fcbs[i]).(link := fcbs[i].link)
      ensures var free := exists i :: 0 <= i < fcbs.Length && old(fcbs[i]).flNm == 0;
              var sidecar := Sidecar(place) in folders || Sidecar(place) in old(host) || createOk;
              match err
              case TmfoErr => !free
              case Browse(code) => free && code == cnid < 0
              case FnfErr => free && cnid >= 0 && (cnid < 0x4000_0000 || (statOk && rfork && statRsrcOk && Sidecar(place) in folders))
              case IoErr => free && cnid >= 0x4000_0000 && statOk && rfork && !sidecar
              case PermErr => free && cnid >= 0x4000_0000 &&
                (!statOk || (rfork && sidecar && !statRsrcOk) ||
                 ((rfork ==> sidecar && statRsrcOk && Sidecar(place) !in folders) && !rdOk && (readOnly || !rwOk)))
              case NoErr =>
                && free && cnid >= 0x4000_0000 && statOk && (rdOk || (!readOnly && rwOk))
                && (rfork ==> statRsrcOk && Sidecar(place) !in folders && sidecar)
              case _ => false
      ensures err == NoErr <==>
                && (exists i :: 0 <= i < fcbs.Length && old(fcbs[i]).flNm == 0)
                && cnid >= FILE && statOk && (rdOk || (!readOnly && rwOk))
                && (rfork ==> statRsrcOk && Sidecar(place) !in folders && (createOk || Sidecar(place) in old(host)))
    {
      refNum := 0;
      var refn;
      err, refn := UnivAllocateFCB();
      if err != NoErr { return TmfoErr, 0; }
      if cnid < 0 { return Browse(cnid), 0; }
      if cnid < FILE { return FnfErr, 0; }
      if !statOk { return PermErr, 0; }
      var file;
      err, file := OpenSidecar(place, rfork, createOk, statRsrcOk);
      if err != NoErr { return err, 0; }
      var write := !readOnly;
      if readOnly {
        if !rdOk { return PermErr, 0; }
      } else if !rwOk {
        write := false;
        if !rdOk { return PermErr, 0; }
      }
      ValidRefs(refn, fcbs.Length);
      ghost var f0 := fcbs[..];
      var x := IndexOf(refn);
      fcbs[x] := Fcb(cnid, rfork, write, file, refn, |host[file]|, 0, true);
      JoinRing(x, refn, f0);
      assert err == NoErr;
      refNum := refn;
    }

    /** For a resource fork, makes sure that its sidecar file exists and moves on to it. */
    method OpenSidecar(place: Place, rfork: bool, createOk: bool, statRsrcOk: bool) returns (err: OSErr, file: Place)
      requires Openings(fcbs[..], host) && place in host
      modifies `host
      ensures Openings(fcbs[..], host) && (old(Lengths(fcbs[..], host)) ==> Lengths(fcbs[..], host))
      ensures host == old(host) ||
                (rfork && Sidecar(place) !in old(host) && host == old(host)[Sidecar(place) := []])
      ensures err == NoErr ==> file == HostFile(Opening(place, rfork)) && file in host
      ensures var there := Sidecar(place) in folders || Sidecar(place) in old(host) || createOk;
              match err
              case NoErr => true
              case IoErr => rfork && !there
              case PermErr => rfork && there && !statRsrcOk
              case FnfErr => rfork && statRsrcOk && Sidecar(place) in folders
              case _ => false
      ensures err == NoErr <==>
                (rfork ==> statRsrcOk && Sidecar(place) !in folders && (createOk || Sidecar(place) in old(host)))
    {
      err, file := NoErr, place;
      if rfork {
        file := Sidecar(place);
        if createOk && file !in host && file !in folders {
          NewFileAgrees(fcbs[..], host, file);
          host := host[file := []];
        }
        if file !in host && file !in folders { return IoErr, file; }
        if !statRsrcOk { return PermErr, file; }
        if file in folders { return FnfErr, file; }
      }
    }

    /** fsOpen's search for any other block of the same fork, and the splice. */
    method JoinRing(x: nat, refn: int, ghost f0: seq<Fcb>)
      requires x < fcbs.Length && refn == Ref(x) && |f0| == fcbs.Length && max9 > 0
      requires Rings(f0, rings) && f0[x].flNm == 0 && fcbs[..] == f0[x := fcbs[x]]
      requires IsOpen(fcbs[x]) && fcbs[x].link == refn && Openings(fcbs[..], host)
      modifies `rings, fcbs
      ensures Valid()
      ensures forall i :: 0 <= i < fcbs.Length ==> fcbs[i] == old(fcbs[i]).(link := fcbs[i].link)
    {
      ghost var fcb := fcbs[x];
      var found, y := FindFellow(x, f0);
      if found {
        rings := SpliceIn(f0, rings, x, fcb, y);
        fcbs[x] := fcbs[x].(link := fcbs[y].link);
        fcbs[y] := fcbs[y].(link := refn);
        assert fcbs[..] == f0[x := fcb.(link := f0[y].link)][y := f0[y].(link := Ref(x))];
      } else {
        RingHasBlock(f0, rings, ForkOf(fcb));
        NewRing(f0, rings, x, fcb);
        rings := rings[ForkOf(fcb) := [x]];
      }
    }

    /** The search: any other block open on the same fork. */
    method FindFellow(x: nat, ghost f0: seq<Fcb>) returns (found: bool, y: nat)
      requires x < fcbs.Length == |f0| && f0[x].flNm == 0 && fcbs[..] == f0[x := fcbs[x]] && IsOpen(fcbs[x])
      ensures found ==> y < fcbs.Length && y != x && IsOpen(f0[y]) && fcbs[y] == f0[y] && ForkOf(f0[y]) == ForkOf(fcbs[x])
      ensures !found ==> NoneOf(f0, ForkOf(fcbs[x]), fcbs.Length)
    {
      var fellow := 0;
      ghost var seen := 0;
      var err := NoErr;
      y := 0;
      while err == NoErr
        invariant if fellow == 0 then seen == 0 else RefNumValid(fellow, fcbs.Length) && seen == IndexOf(fellow) + 1
        invariant 0 <= seen <= fcbs.Length && NoneOf(f0, ForkOf(fcbs[x]), if err == NoErr then seen else fcbs.Length)
        decreases err == NoErr, fcbs.Length - seen
      {
        var next;
        err, next := UnivIndexFCB(fellow);
        ghost var stop := if err == NoErr then IndexOf(next) else fcbs.Length;
        assert forall i :: seen <= i < stop ==> !IsOpen(fcbs[..][i]);
        NoneInGap(f0, ForkOf(fcbs[x]), x, fcbs[..], seen, stop);
        if err == NoErr {
          ValidRefs(next, fcbs.Length);
          fellow := next;
          y := IndexOf(fellow);
          assert fcbs[..][y] == f0[x := fcbs[x]][y];
          if y != x && fcbs[y].flNm == fcbs[x].flNm && fcbs[y].resource == fcbs[x].resource {
            return true, y;
          }
          seen := y + 1;
        }
      }
      found := false;
    }

    // ------------------------------------------------------- closing a fork

    /** fsClose of an open block: it leaves its ring and becomes free. */
    method FsClose(refNum: int) returns (err: OSErr)
      requires Valid()
      requires RefNumValid(refNum, fcbs.Length) ==> IsOpen(fcbs[IndexOf(refNum)])
      modifies `rings, fcbs
      ensures Valid() && (old(Lengths(fcbs[..], host)) ==> Lengths(fcbs[..], host))
      ensures err == if RefNumValid(refNum, fcbs.Length) then NoErr else ParamErr
      ensures err == ParamErr ==> fcbs[..] == old(fcbs[..])
      ensures err == NoErr ==>
                && fcbs[IndexOf(refNum)].flNm == 0
                && forall i :: 0 <= i < fcbs.Length && i != IndexOf(refNum) ==> fcbs[i] == old(fcbs[i]).(link := fcbs[i].link)
    {
      if !RefNumValid(refNum, fcbs.Length) { return ParamErr; }
      ValidRefs(refNum, fcbs.Length);
      var x := IndexOf(refNum);
      var y := LastInRing(x, refNum);
      rings := SpliceOut(fcbs[..], rings, x, y);
      fcbs[y] := fcbs[y].(link := fcbs[x].link);
      fcbs[x] := fcbs[x].(flNm := 0);
      return NoErr;
    }

    /** fsClose's walk round the ring, to the block that links to `x`. */
    method LastInRing(x: nat, refNum: int) returns (y: nat)
      requires Valid() && x < fcbs.Length && refNum == Ref(x) && IsOpen(fcbs[x])
      ensures y < fcbs.Length && IsOpen(fcbs[y]) && fcbs[y].link == refNum
    {
      ghost var f := ForkOf(fcbs[x]);
      ghost var r := RingStartingAt(fcbs[..], rings[f], f, x);
      ghost var p: nat := 0;
      y := x;
      while fcbs[y].link != refNum
        invariant p < |r| && y < fcbs.Length && y == r[p]
        decreases |r| - p
      {
        assert fcbs[y].link == Ref(Succ(r, p));
        ValidRefs(fcbs[y].link, fcbs.Length);
        y := IndexOf(fcbs[y].link);
        p := p + 1;
      }
    }

    // ------------------------------------------------------- changing length

    /** The walk round a ring that tells every fellow of `x` the fork's new length. With `clamp`, as in
        fsSetEOF, marks beyond the new end are brought back to it. */
    method TellFellows(x: nat, len: int, clamp: bool)
      requires x < fcbs.Length && IsOpen(fcbs[x]) && Rings(fcbs[..], rings)
      modifies fcbs
      ensures Rings(fcbs[..], rings) && OnlyLengths(old(fcbs[..]), fcbs[..], ForkOf(old(fcbs[x])))
      ensures forall i :: 0 <= i < fcbs.Length && IsOpen(old(fcbs[i])) && ForkOf(old(fcbs[i])) == ForkOf(old(fcbs[x])) ==>
                && fcbs[i].eof == len
                && fcbs[i].mark == if clamp && old(fcbs[i].mark) > len then len else old(fcbs[i].mark)
    {
      ghost var f0 := fcbs[..];
      ghost var f := ForkOf(fcbs[x]);
      ghost var r := RingStartingAt(f0, rings[f], f, x);
      ghost var p: nat := 0;
      var y := x;
      while true
        invariant p < |r| && y < fcbs.Length && y == r[p]
        invariant Told(f0, fcbs[..], r[..p], len, clamp)
        decreases |r| - p
      {
        ghost var f1 := fcbs[..];
        fcbs[y] := fcbs[y].(eof := len, mark := if clamp && fcbs[y].mark > len then len else fcbs[y].mark);
        ToldOneMore(f0, f1, r, p, len, clamp, fcbs[..]);
        assert fcbs[y].link == Ref(Succ(r, p));
        ValidRefs(fcbs[y].link, fcbs.Length);
        y := IndexOf(fcbs[y].link);
        if y == x {
          assert p + 1 == |r| && r[..p + 1] == r;
          break;
        }
        p := p + 1;
      }
      AllTold(f0, rings, f, r, fcbs[..], len, clamp);
    }

    /** fsSetEOF: the host resizes the file that the block is open on, and the blocks open on the same fork
        are told. */
    method FsSetEOF(refNum: int, len: nat) returns (err: OSErr)
      requires Valid()
      requires RefNumValid(refNum, fcbs.Length) ==> IsOpen(fcbs[IndexOf(refNum)])
      modifies `host, fcbs
      ensures Valid()
      ensures err == if RefNumValid(refNum, fcbs.Length) then NoErr else ParamErr
      ensures err == ParamErr ==> fcbs[..] == old(fcbs[..]) && host == old(host)
      ensures err == NoErr ==>
                var b := old(fcbs[IndexOf(refNum)]);
                && b.file in old(host) && host == old(host)[b.file := Resize(old(host)[b.file], len)]
                && fcbs[..] == SetLength(old(fcbs[..]), ForkOf(b), len)
      ensures old(Separate(fcbs[..]) && Lengths(fcbs[..], host)) ==> Lengths(fcbs[..], host)
    {
      if !RefNumValid(refNum, fcbs.Length) { return ParamErr; }
      ValidRefs(refNum, fcbs.Length);
      var x := IndexOf(refNum);
      ghost var f0, h0 := fcbs[..], host;
      if Separate(f0) && Lengths(f0, h0) { SeparateAgrees(f0, h0, x, len); }
      var file := fcbs[x].file;
      host := host[file := Resize(host[file], len)];
      TellFellows(x, len, true);
      ToldIsSet(f0, fcbs[..], ForkOf(f0[x]), len);
      return NoErr;
    }

    // ---------------------------------------------------- reading and writing

    /** Read9: any short count the host likes, and then perhaps an error. */
    method Read9(f: Place, offset: nat, want: nat) returns (failed: bool, data: File)
      requires f in host
      ensures |data| <= want && data == FileBytes(host[f], offset, |data|)
      ensures offset > |host[f]| ==> data == []
    {
      var got: nat :| got <= want && (got == 0 || offset + got <= |host[f]|);
      data := if got == 0 then [] else host[f][offset..offset + got];
      failed := *;
    }

    /** Write9: the host takes any number of the bytes, and then perhaps reports an error. */
    method Write9(f: Place, offset: nat, data: File) returns (failed: bool, got: nat)
      requires f in host
      modifies `host
      ensures got <= |data| && host == old(host)[f := Patch(old(host)[f], offset, data[..got])]
    {
      got :| got <= |data|;
      host := host[f := Patch(host[f], offset, data[..got])];
      failed := *;
    }

    /** The transfer loop of fsReadWrite, from position `start` of the fork. It moves `act` bytes, in
        pieces of at most Max9 (or a stack buffer's 512), and stops at the first short count. Its
        effect is that of a single transfer of those bytes. */
    method Transfer(trap: Trap, x: nat, buf: array<byte>, req: int, start: nat, useStackBuf: bool)
      returns (failed: bool, act: nat)
      requires max9 > 0 && x < fcbs.Length && fcbs[x].mark == start && fcbs[x].file in host
      requires req <= buf.Length
      modifies `host, fcbs, buf
      ensures (act == 0 || act <= req) && (req <= 0 ==> !failed)
      ensures fcbs[..] == old(fcbs[..])[x := old(fcbs[x]).(mark := start + act)]
      ensures Moved(trap, useStackBuf, old(host), old(fcbs[x]).file, start, old(buf[..]), act, host, buf[..])
    {
      ghost var f0, h0, b0 := fcbs[..], host, buf[..];
      act, failed := 0, false;
      TransferStart(trap, useStackBuf, h0, fcbs[x].file, start, b0);
      while act < req
        invariant !failed && (act == 0 || act <= req) && SoFar(trap, useStackBuf, x, buf, f0, h0, start, b0, act)
        decreases req - act
      {
        var more;
        failed, more, act := Chunk(trap, x, buf, act, req, useStackBuf, f0, h0, start, b0);
        if !more { return; }
      }
    }

    /** The transfer has moved `act` bytes, and the mark with them. */
    ghost predicate SoFar(trap: Trap, discard: bool, x: nat, buf: array<byte>, f0: seq<Fcb>, h0: map<Place, File>,
                          start: nat, b0: File, act: nat)
      reads this, fcbs, buf
    {
      && x < |f0| == fcbs.Length && fcbs[..] == f0[x := f0[x].(mark := start + act)]
      && f0[x].file in host && Moved(trap, discard, h0, f0[x].file, start, b0, act, host, buf[..])
    }

    /** How much to ask for at once. */
    method Piece(left: nat, useStackBuf: bool) returns (want: nat)
      requires max9 > 0 && left > 0
      ensures 0 < want <= left && want <= max9 && (useStackBuf ==> want <= 512)
    {
      want := left;
      if want > max9 { want := max9; }
      if useStackBuf && want > 512 { want := 512; }
    }

    /** One Read9 or Write9, and the mark moved by what it transferred; a short count is the last. */
    method Chunk(trap: Trap, x: nat, buf: array<byte>, act: nat, req: nat, discard: bool,
                 ghost f0: seq<Fcb>, ghost h0: map<Place, File>, ghost start: nat, ghost b0: File)
      returns (failed: bool, more: bool, act': nat)
      requires SoFar(trap, discard, x, buf, f0, h0, start, b0, act) && act < req <= buf.Length && max9 > 0
      modifies `host, fcbs, buf
      ensures act <= act' <= req && SoFar(trap, discard, x, buf, f0, h0, start, b0, act')
      ensures more ==> act < act' && !failed
    {
      var want := Piece(req - act, discard);
      ghost var f1 := fcbs[..];
      assert fcbs[x] == f1[x];
      var got;
      failed, got := MoveData(trap, fcbs[x].file, fcbs[x].mark, buf, act, want, discard, h0, start, b0);
      AdvanceMark(x, got);
      act' := act + got;
      more := !failed && got == want;
    }

    method AdvanceMark(x: nat, got: nat)
      requires x < fcbs.Length
      modifies fcbs
      ensures fcbs[..] == old(fcbs[..])[x := old(fcbs[x]).(mark := old(fcbs[x]).mark + got)]
    {
      fcbs[x] := fcbs[x].(mark := fcbs[x].mark + got);
    }

    method MoveData(trap: Trap, f: Place, offset: nat, buf: array<byte>, act: nat, want: nat, discard: bool,
                    ghost h0: map<Place, File>, ghost start: nat, ghost b0: File)
      returns (failed: bool, got: nat)
      requires f in host && act + want <= buf.Length && offset == start + act
      requires Moved(trap, discard, h0, f, start, b0, act, host, buf[..])
      modifies `host, buf
      ensures got <= want && f in host && Moved(trap, discard, h0, f, start, b0, act + got, host, buf[..])
    {
      if trap == Write {
        failed, got := WriteFrom(f, offset, buf, act, want, discard, h0, start, b0);
      } else {
        failed, got := ReadMoreInto(trap, f, offset, buf, act, want, discard, h0, start, b0);
      }
    }

    method WriteFrom(f: Place, offset: nat, buf: array<byte>, act: nat, want: nat, discard: bool,
                     ghost h0: map<Place, File>, ghost start: nat, ghost b0: File)
      returns (failed: bool, got: nat)
      requires f in host && act + want <= buf.Length && offset == start + act
      requires Moved(Write, discard, h0, f, start, b0, act, host, buf[..])
      modifies `host
      ensures got <= want && f in host && Moved(Write, discard, h0, f, start, b0, act + got, host, buf[..])
    {
      failed, got := Write9(f, offset, buf[act..act + want]);
      assert buf[act..act + want] == buf[..][act..act + want];
      WriteMore(discard, h0, f, start, b0, act, want, got, old(host), buf[..]);
    }

    method ReadMoreInto(trap: Trap, f: Place, offset: nat, buf: array<byte>, act: nat, want: nat, discard: bool,
                        ghost h0: map<Place, File>, ghost start: nat, ghost b0: File)
      returns (failed: bool, got: nat)
      requires f in host && act + want <= buf.Length && offset == start + act && trap != Write
      requires Moved(trap, discard, h0, f, start, b0, act, host, buf[..])
      modifies buf
      ensures got <= want && f in host && Moved(trap, discard, h0, f, start, b0, act + got, host, buf[..])
    {
      ghost var b := buf[..];
      failed, got := ReadInto(f, offset, want, buf, act, discard);
      ghost var b' := buf[..];
      ReadMore(trap, discard, h0, f, start, b0, act, got, b, b');
    }

    /** One Read9, straight into the caller's buffer or, for a buffer in ROM, thrown away. */
    method ReadInto(f: Place, offset: nat, want: nat, buf: array<byte>, at: nat, discard: bool)
      returns (failed: bool, got: nat)
      requires f in host && at + want <= buf.Length
      modifies buf
      ensures got <= want && (got == 0 || offset + got <= |host[f]|)
      ensures buf[..] == if discard then old(buf[..]) else Overwrite(old(buf[..]), at, FileBytes(host[f], offset, got))
    {
      var data;
      failed, data := Read9(f, offset, want);
      got := |data|;
      if !discard {
        forall i | 0 <= i < got { buf[at + i] := data[i]; }
      }
    }

    /** fsReadWrite. `err == Panic` stands for the panic on a host error. Otherwise every open block
        still agrees with the host, the transfer is as `Moved` says from the position that the mode
        and offset select, and the mark has moved by exactly what was transferred. */
    method FsReadWrite(trap: Trap, refNum: int, buf: array<byte>, reqCount: int, posMode: nat, posOffset: int,
                       useStackBuf: bool)
      returns (err: OSErr, act: nat, newOffset: int)
      requires Valid() && reqCount <= buf.Length
      requires RefNumValid(refNum, fcbs.Length) ==> IsOpen(fcbs[IndexOf(refNum)])
      modifies `host, fcbs, buf
      ensures !RefNumValid(refNum, fcbs.Length) ==>
                err == ParamErr && act == 0 && host == old(host) && fcbs[..] == old(fcbs[..]) && buf[..] == old(buf[..])
      ensures RefNumValid(refNum, fcbs.Length) ==>
                Outcome(trap, old(fcbs[..]), old(host), old(buf[..]), IndexOf(refNum), reqCount, posMode, posOffset,
                        useStackBuf, err, act, newOffset, fcbs[..], host, buf[..])
      ensures err != Panic ==> Valid()
      ensures err != Panic && old(Separate(fcbs[..]) && Lengths(fcbs[..], host)) ==> Lengths(fcbs[..], host)
    {
      act, newOffset := 0, posOffset;
      if !RefNumValid(refNum, fcbs.Length) { return ParamErr, 0, posOffset; }
      ValidRefs(refNum, fcbs.Length);
      var x := IndexOf(refNum);
      var mode, req := posMode, reqCount;
      if trap == GetFPos {
        mode, req := 0, 0;
      } else if trap == SetFPos {
        req := 0;
      }
      if trap == Write && !fcbs[x].write { return WrPermErr, 0, posOffset; }
      var start := Seek(mode, fcbs[x].mark, fcbs[x].eof, posOffset);
      if start < 0 {
        ghost var f0 := fcbs[..];
        fcbs[x] := fcbs[x].(mark := 0);
        MarkMoved(f0, rings, host, x, 0, fcbs[..]);
        return PosErr, 0, posOffset;
      }
      fcbs[x] := fcbs[x].(mark := start);
      err, act, newOffset := Serve(trap, x, buf, req, start, posOffset, useStackBuf, old(fcbs[..]));
    }

    /** fsReadWrite once the mark has been set to `start`. */
    method Serve(trap: Trap, x: nat, buf: array<byte>, req: int, start: nat, posOffset: int, useStackBuf: bool,
                 ghost f0: seq<Fcb>)
      returns (err: OSErr, act: nat, newOffset: int)
      requires max9 > 0 && Rings(f0, rings) && Openings(f0, host) && x < |f0| == fcbs.Length && IsOpen(f0[x])
      requires fcbs[..] == f0[x := f0[x].(mark := start)] && req <= buf.Length
      modifies `host, fcbs, buf
      ensures Served(trap, f0, old(host), old(buf[..]), x, req, start, posOffset, useStackBuf,
                     err, act, newOffset, fcbs[..], host, buf[..])
      ensures err != Panic ==> Valid() && (Separate(f0) && Lengths(f0, old(host)) ==> Lengths(fcbs[..], host))
    {
      newOffset := posOffset;
      var failed;
      failed, act := Transfer(trap, x, buf, req, start, useStackBuf);
      if req > 0 { newOffset := start + act; }
      if failed { return Panic, act, newOffset; }
      ghost var moved := newOffset;
      err, newOffset := Conclude(trap, x, req, act, newOffset, start, old(host), f0);
      Concluded(trap, f0, old(host), old(buf[..]), x, req, start, posOffset, useStackBuf, err, act, newOffset, moved,
                fcbs[..], host, buf[..]);
    }

    /** The end of fsReadWrite: a transfer that ended beyond the known length shows that the fork is
        longer; a position there without a transfer is refused. */
    method Conclude(trap: Trap, x: nat, req: int, act: nat, offset: int, start: nat,
                    ghost h0: map<Place, File>, ghost f0: seq<Fcb>)
      returns (err: OSErr, offset': int)
      requires x < fcbs.Length == |f0| && max9 > 0 && IsOpen(f0[x]) && (act == 0 || act <= req)
      requires Rings(f0, rings) && Openings(f0, h0) && fcbs[..] == f0[x := f0[x].(mark := start + act)]
      requires req > 0 ==> offset == start + act
      requires LengthAfter(h0, f0[x].file, start, act, host)
      modifies fcbs
      ensures Valid() && OnlyLengths(f0, fcbs[..], ForkOf(f0[x]))
      ensures Separate(f0) && Lengths(f0, h0) ==> Lengths(fcbs[..], host)
      ensures forall i :: 0 <= i < fcbs.Length && i != x ==> fcbs[i].mark == f0[i].mark
      ensures forall i :: 0 <= i < fcbs.Length ==> fcbs[i].eof == EofAfter(f0, x, start, act, i)
      ensures fcbs[x].mark == if offset > f0[x].eof && act == 0 then f0[x].eof else start + act
      ensures err == Verdict(trap, req, act, offset > f0[x].eof)
      ensures offset' == if offset > f0[x].eof && act == 0 then f0[x].eof else offset
    {
      var refused;
      refused, offset' := Relearn(x, act, offset, start, h0, f0);
      if refused {
        return EofErr, offset';
      }
      if act != req {
        return if trap == Write then IoErr else EofErr, offset';
      }
      return NoErr, offset';
    }

    /** The question whether the fork is longer than its blocks knew. */
    method Relearn(x: nat, act: nat, offset: int, start: nat, ghost h0: map<Place, File>, ghost f0: seq<Fcb>)
      returns (refused: bool, offset': int)
      requires x < fcbs.Length == |f0| && max9 > 0 && IsOpen(f0[x]) && (act > 0 ==> offset == start + act)
      requires Rings(f0, rings) && Openings(f0, h0) && fcbs[..] == f0[x := f0[x].(mark := start + act)]
      requires LengthAfter(h0, f0[x].file, start, act, host)
      modifies fcbs
      ensures Valid() && OnlyLengths(f0, fcbs[..], ForkOf(f0[x]))
      ensures Separate(f0) && Lengths(f0, h0) ==> Lengths(fcbs[..], host)
      ensures forall i :: 0 <= i < fcbs.Length && i != x ==> fcbs[i].mark == f0[i].mark
      ensures forall i :: 0 <= i < fcbs.Length ==> fcbs[i].eof == EofAfter(f0, x, start, act, i)
      ensures refused == (offset > f0[x].eof && act == 0)
      ensures fcbs[x].mark == if refused then f0[x].eof else start + act
      ensures offset' == if refused then f0[x].eof else offset
    {
      var eof := fcbs[x].eof;
      offset', refused := offset, offset > eof && act == 0;
      if refused {
        MarkMoved(f0, rings, h0, x, eof, fcbs[..][x := fcbs[x].(mark := eof)]);
        fcbs[x] := fcbs[x].(mark := eof);
        offset' := eof;
      } else {
        Tell(x, act, offset, start, h0, f0);
      }
    }

    /** A transfer that ended beyond the length known proves the new one. */
    method Tell(x: nat, act: nat, offset: int, start: nat, ghost h0: map<Place, File>, ghost f0: seq<Fcb>)
      requires x < fcbs.Length == |f0| && max9 > 0 && IsOpen(f0[x]) && (act > 0 ==> offset == start + act)
      requires Rings(f0, rings) && Openings(f0, h0) && fcbs[..] == f0[x := f0[x].(mark := start + act)]
      requires LengthAfter(h0, f0[x].file, start, act, host) && (offset > f0[x].eof ==> act > 0)
      modifies fcbs
      ensures Valid() && OnlyLengths(f0, fcbs[..], ForkOf(f0[x]))
      ensures Separate(f0) && Lengths(f0, h0) ==> Lengths(fcbs[..], host)
      ensures forall i :: 0 <= i < fcbs.Length ==> fcbs[i].mark == if i == x then start + act else f0[i].mark
      ensures forall i :: 0 <= i < fcbs.Length ==> fcbs[i].eof == EofAfter(f0, x, start, act, i)
    {
      TellIfLonger(x, act, offset, start, h0, f0);
      OpeningsAfter(f0, h0, x, start, act, fcbs[..], host);
      if Separate(f0) && Lengths(f0, h0) {
        LengthsAfter(f0, h0, x, start, act, fcbs[..], host);
      }
    }

    method TellIfLonger(x: nat, act: nat, offset: int, start: nat, ghost h0: map<Place, File>, ghost f0: seq<Fcb>)
      requires x < fcbs.Length == |f0| && IsOpen(f0[x]) && (act > 0 ==> offset == start + act)
      requires Rings(f0, rings) && Openings(f0, h0) && fcbs[..] == f0[x := f0[x].(mark := start + act)]
      requires offset > f0[x].eof ==> act > 0
      modifies fcbs
      ensures Rings(fcbs[..], rings) && OnlyLengths(f0, fcbs[..], ForkOf(f0[x]))
      ensures forall i :: 0 <= i < fcbs.Length ==> fcbs[i].mark == if i == x then start + act else f0[i].mark
      ensures forall i :: 0 <= i < fcbs.Length ==> fcbs[i].eof == EofAfter(f0, x, start, act, i)
    {
      MarkMoved(f0, rings, h0, x, start + act, fcbs[..]);
      if offset > fcbs[x].eof {
        TellFellows(x, offset, false);
      }
    }
  }

  /** "foo" has its resource fork open, and "foo.rsrc" its data fork: a length set through the first leaves
      the second block wrong about the file that both are open on. */
  method StaleLength(number: Place -> int) returns (v: Volume, x: nat, y: nat)
    requires number(Place(1, FOO)) >= FILE && number(Place(1, FOO + RSRC)) >= FILE
    ensures x < v.fcbs.Length && y < v.fcbs.Length && IsOpen(v.fcbs[x]) && IsOpen(v.fcbs[y])
    ensures v.fcbs[x].file == v.fcbs[y].file == Place(1, FOO + RSRC)
    ensures v.fcbs[y].file in v.host && v.fcbs[y].eof != |v.host[v.fcbs[y].file]|
  {
    var foo, rsrc := Place(1, FOO), Place(1, FOO + RSRC);
    var free := Fcb(0, false, false, foo, 0, 0, 0, false);
    v := new Volume([free, free], 512, map[foo := [], rsrc := []], number, {});
    assert v.fcbs[..][0].flNm == 0 && v.fcbs[..][1].flNm == 0;
    x, y := v.Clash(Opening(foo, true), Opening(rsrc, false));
  }

  /** A file of ten bytes, opened: SetFPos to five beyond the end leaves the mark there without an error,
      and GetFPos then answers with the offset it was passed. */
  method MarkPastEnd(number: Place -> int) returns (v: Volume, x: nat, placed: OSErr, got: OSErr, offset: int)
    requires number(Place(1, FOO)) >= FILE
    ensures x < v.fcbs.Length && IsOpen(v.fcbs[x]) && v.fcbs[x].eof == 10 && v.fcbs[x].mark == 15 && placed == NoErr
    ensures got == NoErr && offset == 0
  {
    var refNum;
    v, refNum, x := OpenTen(number);
    placed := SetFPosFive(v, refNum, x);
    got, offset := GetFPosAt(v, refNum, x);
  }

  method SetFPosFive(v: Volume, refNum: int, x: nat) returns (err: OSErr)
    requires v.Valid() && RefNumValid(refNum, v.fcbs.Length) && IndexOf(refNum) == x < v.fcbs.Length
    requires IsOpen(v.fcbs[x]) && v.fcbs[x].eof == 10
    modifies v`host, v.fcbs
    ensures v.Valid() && err == NoErr && IsOpen(v.fcbs[x]) && v.fcbs[x].eof == 10 && v.fcbs[x].mark == 15
  {
    var buf := new byte[0];
    var act, at;
    err, act, at := v.FsReadWrite(SetFPos, refNum, buf, 0, 2, 5, false);
  }

  method GetFPosAt(v: Volume, refNum: int, x: nat) returns (err: OSErr, offset: int)
    requires v.Valid() && RefNumValid(refNum, v.fcbs.Length) && IndexOf(refNum) == x < v.fcbs.Length
    requires IsOpen(v.fcbs[x]) && v.fcbs[x].eof == 10 && v.fcbs[x].mark == 15
    modifies v`host, v.fcbs
    ensures IsOpen(v.fcbs[x]) && v.fcbs[x].eof == 10 && v.fcbs[x].mark == 15 && err == NoErr && offset == 0
  {
    var buf := new byte[0];
    var act;
    err, act, offset := v.FsReadWrite(GetFPos, refNum, buf, 0, 0, 0, false);
  }

  method OpenTen(number: Place -> int) returns (v: Volume, refNum: int, x: nat)
    requires number(Place(1, FOO)) >= FILE
    ensures fresh(v) && fresh(v.fcbs) && v.Valid() && x < v.fcbs.Length
    ensures RefNumValid(refNum, v.fcbs.Length) && IndexOf(refNum) == x
    ensures IsOpen(v.fcbs[x]) && v.fcbs[x].eof == 10 && v.fcbs[x].mark == 0
  {
    var foo := Place(1, FOO);
    v := new Volume([Fcb(0, false, false, foo, 0, 0, 0, false)], 512, map[foo := Zeros(10)], number, {});
    assert v.fcbs[..][0].flNm == 0;
    refNum, x := v.OpenFully(Opening(foo, false));
  }

  const FOO: seq<byte> := [102, 111, 111]

  /** One call of the File Manager on a fork. */
  datatype Call =
    | Open(place: Place, rfork: bool, readOnly: bool, statOk: bool, createOk: bool, statRsrcOk: bool,
           rwOk: bool, rdOk: bool)
    | Close(refNum: int)
    | SetEOF(refNum: int, len: nat)
    | ReadWrite(trap: Trap, refNum: int, data: File, posMode: nat, posOffset: int, useStackBuf: bool)

  /** The result code of a transfer of `act` bytes out of `req`. */
  function Verdict(trap: Trap, req: int, act: int, beyond: bool): OSErr {
    if beyond && act == 0 then EofErr
    else if act == req then NoErr
    else if trap == Write then IoErr
    else EofErr
  }

  /** Only fork `f` may have grown, to where a non-empty transfer ended. */
  ghost predicate LengthAfter(h0: map<Place, File>, f: Place, start: nat, act: nat, h: map<Place, File>) {
    && f in h0 && f in h && h.Keys == h0.Keys && (forall g :: g in h0 && g != f ==> h[g] == h0[g])
    && |h[f]| == if act == 0 || start + act <= |h0[f]| then |h0[f]| else start + act
  }

  lemma MarkMoved(f0: seq<Fcb>, rings: map<Fork, seq<nat>>, host: map<Place, File>, x: nat, mark: nat, fcbs: seq<Fcb>)
    requires Rings(f0, rings) && Openings(f0, host) && x < |f0| && IsOpen(f0[x]) && fcbs == f0[x := f0[x].(mark := mark)]
    ensures Rings(fcbs, rings) && Openings(fcbs, host) && OnlyLengths(f0, fcbs, ForkOf(f0[x]))
    ensures Lengths(f0, host) ==> Lengths(fcbs, host)
  {
    RingsIgnoreLengths(f0, rings, fcbs);
    if Lengths(f0, host) {
      forall i | 0 <= i < |fcbs| && IsOpen(fcbs[i]) ensures Agrees(fcbs[i], host) { assert Agrees(f0[i], host); }
    }
  }

  /** After a transfer through block `x`, with the blocks of its fork told if it ended beyond the length
      they knew. */
  lemma LengthsAfter(f0: seq<Fcb>, h0: map<Place, File>, x: nat, start: nat, act: nat, fcbs: seq<Fcb>, h: map<Place, File>)
    requires Lengths(f0, h0) && Separate(f0) && x < |f0| && IsOpen(f0[x]) && OnlyLengths(f0, fcbs, ForkOf(f0[x]))
    requires LengthAfter(h0, f0[x].file, start, act, h)
    requires forall i :: 0 <= i < |f0| ==> fcbs[i].eof == EofAfter(f0, x, start, act, i)
    ensures Lengths(fcbs, h)
  {
    assert Agrees(f0[x], h0);
    forall i | 0 <= i < |fcbs| && IsOpen(fcbs[i]) ensures Agrees(fcbs[i], h) {
      assert Agrees(f0[i], h0) && OneFork(f0[i], f0[x]);
    }
  }

  lemma OpeningsAfter(f0: seq<Fcb>, h0: map<Place, File>, x: nat, start: nat, act: nat, fcbs: seq<Fcb>, h: map<Place, File>)
    requires Openings(f0, h0) && x < |f0| && IsOpen(f0[x]) && OnlyLengths(f0, fcbs, ForkOf(f0[x]))
    requires LengthAfter(h0, f0[x].file, start, act, h)
    requires forall i :: 0 <= i < |f0| ==> fcbs[i].eof == EofAfter(f0, x, start, act, i)
    requires forall i :: 0 <= i < |f0| ==> fcbs[i].mark == if i == x then start + act else f0[i].mark
    ensures Openings(fcbs, h)
  {}

  /** Everything fsReadWrite does for an open block `x`. */
  ghost predicate Outcome(trap: Trap, f0: seq<Fcb>, h0: map<Place, File>, b0: File, x: int, reqCount: int,
                          posMode: nat, posOffset: int, useStackBuf: bool,
                          err: OSErr, act: nat, newOffset: int, f1: seq<Fcb>, h1: map<Place, File>, b1: File)
  {
    && 0 <= x < |f0| == |f1| && IsOpen(f0[x])
    && var f := ForkOf(f0[x]);
       var start := Seek(if trap == GetFPos then 0 else posMode, f0[x].mark, f0[x].eof, posOffset);
       var req := if trap == GetFPos || trap == SetFPos then 0 else reqCount;
       if trap == Write && !f0[x].write then
         err == WrPermErr && act == 0 && h1 == h0 && f1 == f0 && b1 == b0
       else if start < 0 then
         err == PosErr && act == 0 && h1 == h0 && f1 == f0[x := f0[x].(mark := 0)] && b1 == b0
       else
         Served(trap, f0, h0, b0, x, req, start, posOffset, useStackBuf, err, act, newOffset, f1, h1, b1)
  }

  /** The length that block `i` has after a transfer through block `x`: a transfer beyond the length known
      proves a new one, for all blocks of the fork. */
  function EofAfter(f0: seq<Fcb>, x: nat, start: nat, act: nat, i: nat): int
    requires x < |f0| && i < |f0|
  {
    if act > 0 && start + act > f0[x].eof && IsOpen(f0[i]) && ForkOf(f0[i]) == ForkOf(f0[x]) then start + act else f0[i].eof
  }

  ghost predicate Served(trap: Trap, f0: seq<Fcb>, h0: map<Place, File>, b0: File, x: nat, req: int,
                         start: nat, posOffset: int, useStackBuf: bool,
                         err: OSErr, act: nat, newOffset: int, f1: seq<Fcb>, h1: map<Place, File>, b1: File)
    requires x < |f0| == |f1| && IsOpen(f0[x])
  {
    var f := ForkOf(f0[x]);
    && (act == 0 || act <= req) && (req <= 0 ==> err != Panic)
    && Moved(trap, useStackBuf, h0, f0[x].file, start, b0, act, h1, b1)
    && (err != Panic ==>
          && OnlyLengths(f0, f1, f)
          && (forall i :: 0 <= i < |f0| && i != x ==> f1[i].mark == f0[i].mark)
          && (forall i :: 0 <= i < |f0| ==> f1[i].eof == EofAfter(f0, x, start, act, i))
          && if req > 0 then
               && err == Verdict(trap, req, act, start > f0[x].eof)
               && f1[x].mark == (if act > 0 || start <= f0[x].eof then start + act else f0[x].eof)
               && newOffset == f1[x].mark
             else
               && act == 0 && err == Verdict(trap, req, 0, posOffset > f0[x].eof)
               && f1[x].mark == (if posOffset > f0[x].eof then f0[x].eof else start)
               && newOffset == (if posOffset > f0[x].eof then f0[x].eof else posOffset))
  }

  lemma Concluded(trap: Trap, f0: seq<Fcb>, h0: map<Place, File>, b0: File, x: nat, req: int,
                  start: nat, posOffset: int, useStackBuf: bool,
                  err: OSErr, act: nat, newOffset: int, offset: int, f1: seq<Fcb>, h1: map<Place, File>, b1: File)
    requires x < |f0| == |f1| && IsOpen(f0[x]) && (act == 0 || act <= req)
    requires Moved(trap, useStackBuf, h0, f0[x].file, start, b0, act, h1, b1)
    requires offset == if req > 0 then start + act else posOffset
    requires OnlyLengths(f0, f1, ForkOf(f0[x])) && forall i :: 0 <= i < |f0| && i != x ==> f1[i].mark == f0[i].mark
    requires forall i :: 0 <= i < |f0| ==> f1[i].eof == EofAfter(f0, x, start, act, i)
    requires f1[x].mark == if offset > f0[x].eof && act == 0 then f0[x].eof else start + act
    requires err == Verdict(trap, req, act, offset > f0[x].eof)
    requires newOffset == if offset > f0[x].eof && act == 0 then f0[x].eof else offset
    ensures Served(trap, f0, h0, b0, x, req, start, posOffset, useStackBuf, err, act, newOffset, f1, h1, b1)
  {}

  // ------------------------------------------------------- where a transfer takes place

  /** By the File Manager's positioning modes: at the mark, from the start, from the end, from the mark. */
  ghost predicate At(b: Fcb, mode: nat, offset: int, start: int) {
    && (mode % 4 == 0 ==> start == b.mark)
    && (mode % 4 == 1 ==> start == offset)
    && (mode % 4 == 2 ==> start - b.eof == offset)
    && (mode % 4 == 3 ==> start - b.mark == offset)
  }

  /** A Read that succeeds has filled the buffer from where the mode says, and left the mark behind it; one
      that comes up short ends with eofErr; one before the start moves nothing. */
  lemma ReadFetches(f0: seq<Fcb>, h0: map<Place, File>, b0: File, x: int, n: int, mode: nat, offset: int,
                    err: OSErr, act: nat, newOffset: int, f1: seq<Fcb>, h1: map<Place, File>, b1: File, start: int)
    requires Outcome(Read, f0, h0, b0, x, n, mode, offset, false, err, act, newOffset, f1, h1, b1)
    requires At(f0[x], mode, offset, start) && n > 0 && err != Panic
    ensures h1 == h0 && |b1| == |b0|
    ensures err == PosErr <==> start < 0
    ensures start < 0 ==> act == 0 && b1 == b0 && f1[x].mark == 0
    ensures err == NoErr ==>
              && act == n && 0 <= start && f0[x].file in h0 && start + n <= |h0[f0[x].file]| && n <= |b0|
              && b1[..n] == h0[f0[x].file][start..start + n] && b1[n..] == b0[n..]
              && f1[x].mark == newOffset == start + n
    ensures start >= 0 && act < n ==> err == EofErr
    ensures err == NoErr || err == PosErr || err == EofErr
  {}

  /** What the last n bytes are read by. */
  lemma ReadsLastBytes(f0: seq<Fcb>, h0: map<Place, File>, b0: File, x: int, n: int,
                       err: OSErr, act: nat, newOffset: int, f1: seq<Fcb>, h1: map<Place, File>, b1: File)
    requires Outcome(Read, f0, h0, b0, x, n, 2, -n, false, err, act, newOffset, f1, h1, b1)
    requires n > 0 && err == NoErr && Agrees(f0[x], h0)
    ensures var file := h0[f0[x].file]; n <= |file| && n <= |b1| && b1[..n] == file[|file| - n..]
  {
    ReadFetches(f0, h0, b0, x, n, 2, -n, err, act, newOffset, f1, h1, b1, f0[x].eof - n);
  }

  /** A Write that succeeds has stored the buffer there; one that is short ends with ioErr, unless it began
      beyond the end and stored nothing. */
  lemma WriteStores(f0: seq<Fcb>, h0: map<Place, File>, b0: File, x: int, n: int, mode: nat, offset: int, discard: bool,
                    err: OSErr, act: nat, newOffset: int, f1: seq<Fcb>, h1: map<Place, File>, b1: File, start: int)
    requires Outcome(Write, f0, h0, b0, x, n, mode, offset, discard, err, act, newOffset, f1, h1, b1)
    requires At(f0[x], mode, offset, start) && n > 0 && err != Panic
    ensures b1 == b0
    ensures err == WrPermErr <==> !f0[x].write
    ensures err == PosErr <==> f0[x].write && start < 0
    ensures err == WrPermErr || err == PosErr ==> h1 == h0
    ensures err == NoErr ==>
              && act == n && 0 <= start && n <= |b0| && f0[x].file in h0 && f0[x].file in h1 && h1.Keys == h0.Keys
              && f1[x].mark == newOffset == start + n
              && (forall g :: g in h0 && g != f0[x].file ==> h1[g] == h0[g])
              && var was, now := h0[f0[x].file], h1[f0[x].file];
                 && |now| == (if start + n > |was| then start + n else |was|)
                 && forall i :: 0 <= i < |now| ==>
                      now[i] == if start <= i < start + n then b0[i - start] else if i < |was| then was[i] else 0
    ensures f0[x].write && start >= 0 && act < n ==> err == if act == 0 && start > f0[x].eof then EofErr else IoErr
  {
    if err == NoErr {
      var was, now := h0[f0[x].file], h1[f0[x].file];
      forall i | 0 <= i < |now|
        ensures now[i] == if start <= i < start + n then b0[i - start] else if i < |was| then was[i] else 0
      {
        PatchAt(was, start, b0[..n], i);
      }
    }
  }

  // ------------------------------------------------------- calls that only position

  /** The mark goes to the position asked for, or, with an error, to the end of the fork if that is less. */
  ghost predicate Positioned(b: Fcb, b': Fcb, start: int, err: OSErr) {
    if start > b.eof then err == EofErr && b'.mark == b.eof else err == NoErr && b'.mark == start
  }

  /** SetFPos compares the offset passed, not the position it stands for, with the end of the fork: it does
      as it should if and only if both lie beyond the end or neither does. */
  lemma SetFPosExactly(f0: seq<Fcb>, h0: map<Place, File>, b0: File, x: int, reqCount: int, posMode: nat, posOffset: int,
                       discard: bool, err: OSErr, act: nat, newOffset: int, f1: seq<Fcb>, h1: map<Place, File>, b1: File)
    requires Outcome(SetFPos, f0, h0, b0, x, reqCount, posMode, posOffset, discard, err, act, newOffset, f1, h1, b1)
    requires Seek(posMode, f0[x].mark, f0[x].eof, posOffset) >= 0
    ensures var start := Seek(posMode, f0[x].mark, f0[x].eof, posOffset);
            Positioned(f0[x], f1[x], start, err) <==> (posOffset > f0[x].eof <==> start > f0[x].eof)
  {}

  /** GetFPos never stores the mark: it answers rightly if and only if the caller passed it the mark. */
  lemma GetFPosExactly(f0: seq<Fcb>, h0: map<Place, File>, b0: File, x: int, reqCount: int, posMode: nat, posOffset: int,
                       discard: bool, err: OSErr, act: nat, newOffset: int, f1: seq<Fcb>, h1: map<Place, File>, b1: File)
    requires Outcome(GetFPos, f0, h0, b0, x, reqCount, posMode, posOffset, discard, err, act, newOffset, f1, h1, b1)
    requires 0 <= f0[x].mark <= f0[x].eof
    ensures newOffset == f1[x].mark == f0[x].mark && err == NoErr <==> posOffset == f0[x].mark
  {}

  /** Where that can fail for the modes of SetFPos: an offset from the start never does. */
  lemma SetFPosByMode(mode: nat, mark: int, eof: int, offset: int)
    requires 0 <= mark <= eof
    ensures var rightly := (offset > eof <==> Seek(mode, mark, eof, offset) > eof);
            && (mode % 4 == 0 ==> (rightly <==> offset <= eof))
            && (mode % 4 == 1 ==> rightly)
            && (mode % 4 == 2 ==> (rightly <==> offset <= 0 || offset > eof))
            && (mode % 4 == 3 ==> (rightly <==> offset <= eof - mark || offset > eof))
  {}

  /** What moving `act` bytes in one piece would have done to the host and the caller's buffer. */
  ghost predicate Moved(trap: Trap, discard: bool, host: map<Place, File>, f: Place, start: nat, buf: File, act: nat,
                        host': map<Place, File>, buf': File)
  {
    && f in host && act <= |buf|
    && if trap == Write then
         host' == host[f := Patch(host[f], start, buf[..act])] && buf' == buf
       else
         && host' == host && (act > 0 ==> start + act <= |host[f]|)
         && buf' == if discard then buf else Overwrite(buf, 0, FileBytes(host[f], start, act))
  }

  function Overwrite(b: File, at: nat, data: File): (r: File)
    requires at + |data| <= |b|
    ensures |r| == |b|
  {
    b[..at] + data + b[at + |data|..]
  }

  /** The `n` bytes of a file from `pos`, if it has them. */
  function FileBytes(f: File, pos: nat, n: nat): (b: File)
    ensures pos + n <= |f| || n == 0 ==> |b| == n
    ensures |b| <= n
  {
    if pos + n <= |f| then f[pos..pos + n] else []
  }

  lemma TransferStart(trap: Trap, discard: bool, host: map<Place, File>, f: Place, start: nat, b: File)
    requires f in host
    ensures Moved(trap, discard, host, f, start, b, 0, host, b)
  {
    assert b[..0] == [] && host[f := Patch(host[f], start, b[..0])] == host;
    assert Overwrite(b, 0, FileBytes(host[f], start, 0)) == b;
  }

  lemma WriteMore(discard: bool, h0: map<Place, File>, f: Place, start: nat, b0: File, act: nat, want: nat, got: nat,
                  h: map<Place, File>, b: File)
    requires Moved(Write, discard, h0, f, start, b0, act, h, b) && got <= want && act + want <= |b|
    ensures Moved(Write, discard, h0, f, start, b0, act + got,
                  h[f := Patch(h[f], start + act, b[act..act + want][..got])], b)
  {
    PatchTwice(h0[f], start, b[..act], b[act..act + want][..got]);
    assert b[..act] + b[act..act + want][..got] == b[..act + got];
  }

  lemma ReadMore(trap: Trap, discard: bool, host: map<Place, File>, f: Place, start: nat, b0: File, act: nat, got: nat,
                 b: File, b': File)
    requires trap != Write && Moved(trap, discard, host, f, start, b0, act, host, b) && act + got <= |b|
    requires got > 0 ==> start + act + got <= |host[f]|
    requires b' == if discard then b else Overwrite(b, act, FileBytes(host[f], start + act, got))
    ensures Moved(trap, discard, host, f, start, b0, act + got, host, b')
  {
    if !discard {
      BytesTwice(host[f], start, act, got);
      OverwriteTwice(b0, FileBytes(host[f], start, act), FileBytes(host[f], start + act, got));
    }
  }

  lemma BytesTwice(f: File, pos: nat, n: nat, m: nat)
    requires (n > 0 ==> pos + n <= |f|) && (m > 0 ==> pos + n + m <= |f|)
    ensures |FileBytes(f, pos, n)| == n && |FileBytes(f, pos + n, m)| == m
    ensures FileBytes(f, pos, n) + FileBytes(f, pos + n, m) == FileBytes(f, pos, n + m)
  {}

  lemma OverwriteTwice(b: File, x: File, y: File)
    requires |x| + |y| <= |b|
    ensures Overwrite(Overwrite(b, 0, x), |x|, y) == Overwrite(b, 0, x + y)
  {}

  /** The blocks in `told` have heard of the new length; the others are as they were. */
  ghost predicate Told(f0: seq<Fcb>, fcbs: seq<Fcb>, told: seq<nat>, len: int, clamp: bool) {
    && |fcbs| == |f0|
    && forall i :: 0 <= i < |f0| ==>
         fcbs[i] == if i in told then f0[i].(eof := len, mark := if clamp && f0[i].mark > len then len else f0[i].mark)
                    else f0[i]
  }

  /** None of the first `n` blocks is open on `f`. */
  ghost predicate NoneOf(fcbs: seq<Fcb>, f: Fork, n: nat)
    requires n <= |fcbs|
  {
    forall i :: 0 <= i < n && IsOpen(fcbs[i]) ==> ForkOf(fcbs[i]) != f
  }

  lemma NoneInGap(f0: seq<Fcb>, f: Fork, x: nat, fcbs: seq<Fcb>, seen: nat, stop: nat)
    requires x < |f0| && !IsOpen(f0[x]) && seen <= stop <= |f0| == |fcbs| && NoneOf(f0, f, seen)
    requires fcbs == f0[x := fcbs[x]] && forall i :: seen <= i < stop ==> !IsOpen(fcbs[i])
    ensures NoneOf(f0, f, stop)
  {
    assert forall i :: seen <= i < stop && i != x ==> fcbs[i] == f0[i];
  }

  lemma RingHasBlock(fcbs: seq<Fcb>, rings: map<Fork, seq<nat>>, f: Fork)
    requires Rings(fcbs, rings)
    ensures f in rings ==> exists i: nat :: i < |fcbs| && IsOpen(fcbs[i]) && ForkOf(fcbs[i]) == f
  {
    if f in rings { assert ForkOf(fcbs[rings[f][0]]) == f; }
  }

  lemma ToldOneMore(f0: seq<Fcb>, fcbs: seq<Fcb>, r: seq<nat>, p: nat, len: int, clamp: bool, fcbs': seq<Fcb>)
    requires Distinct(r) && p < |r| && r[p] < |f0| && Told(f0, fcbs, r[..p], len, clamp)
    requires var y := r[p];
             fcbs' == fcbs[y := fcbs[y].(eof := len, mark := if clamp && fcbs[y].mark > len then len else fcbs[y].mark)]
    ensures Told(f0, fcbs', r[..p + 1], len, clamp)
    ensures fcbs'[r[p]].link == f0[r[p]].link
  {
    assert r[p] !in r[..p];
    assert r[..p + 1] == r[..p] + [r[p]];
  }

  lemma AllTold(f0: seq<Fcb>, rings: map<Fork, seq<nat>>, f: Fork, r: seq<nat>, fcbs: seq<Fcb>, len: int, clamp: bool)
    requires Rings(f0, rings) && f in rings && RingOk(f0, r, f) && (forall i :: i in r <==> i in rings[f])
    requires Told(f0, fcbs, r, len, clamp)
    ensures Rings(fcbs, rings) && OnlyLengths(f0, fcbs, f)
    ensures forall i :: 0 <= i < |fcbs| && IsOpen(f0[i]) && ForkOf(f0[i]) == f ==>
              fcbs[i].eof == len && fcbs[i].mark == if clamp && f0[i].mark > len then len else f0[i].mark
  {
    RingsIgnoreLengths(f0, rings, fcbs);
  }
}
