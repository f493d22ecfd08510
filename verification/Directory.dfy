/**
 * The directory walk, and the creation and wiping of entries, over a directory
 * cursor.  Each method is proved against the functions of DirRecords.
 */
module Directory {
  import opened Bytes
  import opened Arith
  import opened Chains
  import opened Volume
  import opened Allocator
  import opened LongNames
  import opened ShortNames
  import opened DirRecords
  import opened DirCursor
  import VR = VolumeRuns

  /** What one call of fat_readdir hands to its caller. */
  datatype Dirent = Dirent(vfat: bool, start: Mark, count: nat, name: seq<byte>, dName: seq<byte>, kind: Kind, raw: Slot)

  const NOWHERE := Mark(0, -1, 0, 0)

  /** The long-name loop of fat_readdir, from the first slot of a long name to the slot behind it. */
  method ReadLongName(c: Cursor, name: array<byte>) returns (deleted: bool, count: nat)
    requires c.Valid() && c.OnSlot() && RunEnds(c.Slots(), c.At()) && name.Length == NAME_ROOM
    modifies c, name
    ensures c.Valid() && c.OnSlot() && c.Slots() == old(c.Slots())
    ensures (c.At(), name[..], deleted) == LongRun(old(c.Slots()), old(c.At()), old(name[..])) && count == c.At() - old(c.At())
  {
    hide StoreChars, Times, Quot, Rem, SlotsIn, Tree, LongRun, RunEnds, Cursor.Placed;
    ghost var slots := c.Slots();
    ghost var start := c.At();
    ghost var whole := LongRun(slots, start, name[..]);
    deleted, count := false, 0;
    while true
      invariant c.Valid() && c.OnSlot() && c.Slots() == slots && c.At() == start + count && 0 <= c.At() < |slots|
      invariant RunEnds(slots, c.At())
      invariant var r := LongRun(slots, c.At(), name[..]); whole == (r.0, r.1, r.2 || deleted)
      decreases |slots| - c.At()
    {
      RunStep(slots, c.At(), name[..]);
      var e := c.Current();
      if e[0] == 0xE5 {
        deleted := true;
      }
      CopyOutOfEntry(name, e);
      var seqNumber := e[0] as int % 0x20;
      count := count + 1;
      var _ := c.Advance();
      var next := c.Current();
      if next[0x0B] != 0x0F || seqNumber == 1 {
        break;
      }
    }
  }

  /** One turn of the long-name loop. */
  lemma RunStep(slots: seq<Slot>, i: nat, name: seq<byte>)
    requires RunEnds(slots, i) && |name| == NAME_ROOM
    ensures i + 1 < |slots| && EntryNumber(slots[i]) >= 1
    ensures var stop := slots[i + 1][0x0B] != 0x0F || EntryNumber(slots[i]) == 1;
            var name', gone := StoreChars(name, slots[i]), slots[i][0] == 0xE5;
            if stop then LongRun(slots, i, name) == (i + 1, name', gone)
            else RunEnds(slots, i + 1) && var r := LongRun(slots, i + 1, name'); LongRun(slots, i, name) == (r.0, r.1, r.2 || gone)
  {
    hide StoreChars, EntryNumber;
  }

  /** The part of fat_readdir behind the long names: what becomes of the slot, and the name that is taken out of it. */
  method Classify(vfat: bool, name: array<byte>, deleted: bool, slot: Slot) returns (kind: Kind, dName: seq<byte>)
    requires name.Length == NAME_ROOM
    ensures kind == KindOf(vfat, name[..], deleted, slot) && dName == if kind.Named? then ShortName(slot) else []
  {
    hide ShortName;
    dName := [];
    if vfat && name[0] == 0x2E {
      return Hidden, dName;
    }
    if deleted || slot[0] == 0xE5 {
      return Hidden, dName;
    }
    if slot[0] == 0x00 {
      return FreeSlot, dName;
    }
    var attrib: int := slot[0x0B];
    if attrib == 0x08 || attrib / 2 % 2 == 1 {
      return Hidden, dName;
    }
    dName := ExtractName(slot);
    kind := if attrib == 0 && dName == [] then FreeSlot else Named;
  }

  /** The part of fat_readdir behind the first advance_to_next_entry. */
  method ReadHere(c: Cursor) returns (de: Dirent, ghost startIndex: nat)
    requires c.Valid() && c.OnSlot() && CanRead(c.Slots(), c.At())
    modifies c
    ensures c.Valid() && c.Slots() == old(c.Slots()) && Shows(c, de, startIndex, old(c.At()))
  {
    hide StoreChars, EmptyName, Times, Quot, Rem, SlotsIn, Tree, ShortName, KindOf, LongRun, RunEnds, CString, Shows, Cursor.Placed;
    var name := new byte[NAME_ROOM](_ => 0);
    assert name[..] == EmptyName() by { AllZero(name[..]); }
    startIndex := 0;
    ghost var at: nat := c.At();
    var slot := c.Current();
    var vfat := slot[0x0B] == 0x0F && slot[0] != 0x00 && slot[0] != 0xE5;
    var deleted, start, count := false, NOWHERE, 0;
    if vfat {
      start := c.Save();
      startIndex := c.index;
      deleted, count := ReadLongName(c, name);
      slot := c.Current();
    }
    var kind, dName := Classify(vfat, name, deleted, slot);
    var longName := if vfat then CString(name[..]) else [];
    de := Dirent(vfat, start, count, longName, dName, kind, slot);
    ShownHere(c, de, startIndex, at, name[..], deleted);
  }

  lemma ShownHere(c: Cursor, de: Dirent, startIndex: nat, first: nat, name: seq<byte>, deleted: bool)
    requires c.Valid() && c.OnSlot() && CanRead(c.Slots(), first) && |name| == NAME_ROOM && 0 <= c.At() < |c.Slots()|
    requires de.vfat == IsVfat(c.Slots()[first]) && de.raw == c.Slots()[c.At()]
    requires if de.vfat then (c.At(), name, deleted) == LongRun(c.Slots(), first, EmptyName())
             else c.At() == first && name == EmptyName() && !deleted
    requires de.name == (if de.vfat then CString(name) else []) && de.kind == KindOf(de.vfat, name, deleted, de.raw)
    requires de.dName == if de.kind.Named? then ShortName(de.raw) else []
    requires if de.vfat then c.Marks(de.start, startIndex) && c.Place(de.start, startIndex) == first && de.count == c.At() - first
             else de.start == NOWHERE && de.count == 0
    ensures Shows(c, de, startIndex, first)
  {
    hide StoreChars, EmptyName, Times, Quot, Rem, SlotsIn, Tree, ShortName, KindOf, LongRun, RunEnds, CString, IsVfat,
         Cursor.Placed, Cursor.Marks, Cursor.Place;
  }

  /** fat_readdir without extension: the next entry, or the end of the directory. */
  method ReadDir(c: Cursor) returns (retVal: int, de: Dirent, ghost startIndex: nat)
    requires c.Valid() && c.dirSector != -1
    requires c.At() + 1 < |c.Slots()| ==> CanRead(c.Slots(), c.At() + 1)
    modifies c
    ensures c.Valid() && c.Slots() == old(c.Slots())
    ensures retVal == if old(c.At()) + 1 < |c.Slots()| then 0 else -1
    ensures retVal == 0 ==> Shows(c, de, startIndex, old(c.At()) + 1)
    ensures retVal != 0 ==> c.dirSector == -1
  {
    hide Times, Quot, Rem, SlotsIn, Tree, CanRead, ReadAt, Shows, Cursor.Placed;
    retVal := c.Advance();
    if retVal == -2 {
      return -1, Dirent(false, NOWHERE, 0, [], [], Hidden, ZeroSlot()), 0;
    }
    de, startIndex := ReadHere(c);
  }

  /** The entry from slot first on ends at slot last, and free says whether it is a free slot. */
  predicate Took(slots: seq<Slot>, first: int, last: int, raw: Slot, free: bool) {
    && 0 <= first < |slots| && CanRead(slots, first) && last == ReadAt(slots, first).last
    && raw == slots[last] && free == IsFree(slots, first)
  }

  /**
   * read_next_direntry_and_assure_is_free: fat_readdir that extends the directory
   * by a zeroed cluster when its slots run out.
   */
  method ReadNextAssureFree(c: Cursor) returns (free: bool, de: Dirent)
    requires c.Valid() && c.dirSector != -1
    requires if c.At() + 1 < |c.Slots()| then CanRead(c.Slots(), c.At() + 1) else !NoneFree(c.d.fat)
    modifies c, c.d`sectors, c.d`fat, c.d`clusters, c.d`chains, c.d`fatFaults, c.d`ioFaults
    ensures c.Valid() && c.OnSlot()
    ensures old(c.At()) + 1 < |old(c.Slots())| ==> Unchanged(old(Snapshot(c.d)), Snapshot(c.d))
    ensures old(c.At()) + 1 == |old(c.Slots())| ==> Lengthened(old(Snapshot(c.d)), Snapshot(c.d), c.id)
    ensures c.Slots() == old(c.Slots()) + Zeros(if old(c.At()) + 1 < |old(c.Slots())| then 0 else 16 * c.d.geo.sectorsPerCluster)
    ensures Took(c.Slots(), old(c.At()) + 1, c.At(), de.raw, free)
  {
    hide Times, Quot, Rem, SlotsIn, WellFormed, ShortName, Cursor.Placed, LongRun, RunEnds;
    var retVal := c.Advance();
    if c.dirSector == -1 {
      var _, _ := c.Extend();
      retVal := c.Advance();
      ReadZero(c.Slots(), c.At());
    }
    var de', startIndex := ReadHere(c);
    de := de';
    free := !(de.vfat || !de.kind.FreeSlot? || de.raw[0] == 0xE5);
  }

  lemma AllZero(b: seq<byte>)
    requires |b| == NAME_ROOM && forall k :: 0 <= k < NAME_ROOM ==> b[k] == 0
    ensures b == EmptyName()
  {
  }

  /** de is what ReadAt finds from slot first on, and the cursor stands on its last slot. */
  ghost predicate Shows(c: Cursor, de: Dirent, startIndex: nat, first: int)
    requires c.Valid()
    reads c, c.d`sectors, c.d`fat, c.d`clusters, c.d`chains, c.d`ioFaults, c.d`fatFaults
  {
    var slots := c.Slots();
    && 0 <= first < |slots| && CanRead(slots, first) && c.OnSlot()
    && var r := ReadAt(slots, first);
       c.At() == r.last && de.vfat == r.vfat && de.name == r.name && de.kind == r.kind && de.raw == slots[r.last]
       && de.dName == (if r.kind.Named? then ShortName(de.raw) else [])
       && (!r.vfat ==> de.start == NOWHERE && de.count == 0)
       && (r.vfat ==> c.Marks(de.start, startIndex) && c.Place(de.start, startIndex) == first && de.count == r.last - first)
  }

  /** A listing: fat_readdir until it fails, showing what has a name. */
  method ListDirectory(c: Cursor) returns (items: seq<Item>)
    requires c.Valid() && c.dirSector != -1 && c.At() == -1 && Readable(c.Slots())
    modifies c
    ensures c.Valid() && c.Slots() == old(c.Slots()) && items == Listing(c.Slots(), 0)
  {
    hide Times, Quot, Rem, SlotsIn, Tree, Readable, Listing, ShortName, Shows;
    ghost var slots := c.Slots();
    items := [];
    while true
      invariant c.Valid() && c.dirSector != -1 && c.Slots() == slots && -1 <= c.At() < |slots|
      invariant items + Listing(slots, c.At() + 1) == Listing(slots, 0)
      decreases |slots| - c.At()
    {
      ghost var first: nat := c.At() + 1;
      CanReadAll(slots, first);
      var retVal, de, startIndex := ReadDir(c);
      if retVal != 0 {
        break;
      }
      ShownItem(c, de, startIndex, first);
      if de.dName != [] {
        items := items + [Item(de.name, de.raw)];
      }
    }
  }

  lemma CanReadAll(slots: seq<Slot>, i: nat)
    requires Readable(slots) && i <= |slots|
    ensures if i < |slots| then CanRead(slots, i) else Listing(slots, i) == []
  {
    hide RunEnds;
  }

  lemma ShownItem(c: Cursor, de: Dirent, startIndex: nat, first: nat)
    requires c.Valid() && Shows(c, de, startIndex, first) && Readable(c.Slots())
    ensures c.OnSlot() && 0 <= c.At() < |c.Slots()| && first <= c.At()
    ensures Listing(c.Slots(), first) ==
            (if de.dName != [] then [Item(de.name, de.raw)] else []) + Listing(c.Slots(), c.At() + 1)
  {
    hide Times, Quot, Rem, SlotsIn, Tree, ShortName, ReadAt, CanRead, Listing, Readable;
    ListingStep(c.Slots(), first);
  }

  lemma ListingStep(slots: seq<Slot>, i: nat)
    requires Readable(slots) && i < |slots|
    ensures CanRead(slots, i) && Listing(slots, i) == Show(slots, ReadAt(slots, i)) + Listing(slots, ReadAt(slots, i).last + 1)
  {
    hide ReadAt, Show, RunEnds;
  }

  // ----- what happens to the rest of the volume

  datatype View = View(fat: Fat, clusters: seq<seq<Sector>>, chains: map<int, seq<nat>>)

  ghost function Snapshot(d: Disk): View
    reads d`fat, d`clusters, d`chains
  {
    View(d.fat, d.clusters, d.chains)
  }

  ghost predicate Unchanged(v: View, w: View) { v == w }

  /** owner's chain has one cluster more; the clusters of other owners hold what they held. */
  ghost predicate Lengthened(v: View, w: View, owner: int) {
    && AddedOne(v.fat, v.chains, w.fat, w.chains, owner)
    && owner in w.chains && |w.clusters| == |v.clusters|
    && forall c :: 0 <= c < |v.clusters| && c !in w.chains[owner] ==> w.clusters[c] == v.clusters[c]
  }

  /**
   * Only owner's directory has changed: its chain may be longer, everything of the
   * others is as before, and the volume went through extensions of it only.
   */
  ghost predicate OnlyOwner(v: View, w: View, owner: int) {
    && owner in v.chains && owner in w.chains && v.chains[owner] <= w.chains[owner] && |w.clusters| == |v.clusters|
    && VR.Reaches(VR.Tables(v.fat, v.chains), VR.Tables(w.fat, w.chains), {owner})
    && (forall o :: o in w.chains <==> o in v.chains)
    && (forall o :: o in v.chains && o != owner ==> w.chains[o] == v.chains[o])
    && (forall o, x :: o in v.chains && o != owner && x in v.chains[o] && x < |v.clusters| ==> w.clusters[x] == v.clusters[x])
  }

  lemma SameOwner(v: View, owner: int)
    requires owner in v.chains
    ensures OnlyOwner(v, v, owner)
  {
    VR.ReachesItself(VR.Tables(v.fat, v.chains), {owner});
  }

  lemma OnlyOwnerChain(u: View, v: View, w: View, owner: int)
    requires OnlyOwner(u, v, owner) && OnlyOwner(v, w, owner)
    ensures OnlyOwner(u, w, owner)
  {
    hide VR.Reaches;
    VR.ReachesOn(VR.Tables(u.fat, u.chains), VR.Tables(v.fat, v.chains), VR.Tables(w.fat, w.chains), {owner});
  }

  lemma LengthenedOnlyOwner(v: View, w: View, owner: int)
    requires Lengthened(v, w, owner) && WellFormed(v.fat, v.chains) && WellFormed(w.fat, w.chains)
    ensures OnlyOwner(v, w, owner)
    ensures 0 < FreeCount(v.fat) == FreeCount(w.fat) + 1
  {
    hide Covered, FreeCount, VR.Reaches;
    AddedIsStep(v.fat, v.chains, w.fat, w.chains, owner);
    var ch := v.chains[owner];
    var c: nat :| 2 <= c < |v.fat| && v.fat[c] == 0 && w.chains == v.chains[owner := ch + [c]]
                  && w.fat == v.fat[c := END_MARK][ch[|ch| - 1] := c];
    assert IsChain(v.fat, ch);
    OneLessFree(v.fat, c, ch[|ch| - 1]);
    forall o, x | o in v.chains && o != owner && x in v.chains[o] && x < |v.clusters| ensures w.clusters[x] == v.clusters[x] {
      assert x in w.chains[o];
      assert x !in w.chains[owner];
    }
  }

  lemma OneLessFree(fat: Fat, c: nat, tail: nat)
    requires 2 <= c < |fat| && fat[c] == 0 && tail < |fat| && fat[tail] != 0
    ensures FreeCount(fat) > 0 && FreeCount(fat[c := END_MARK][tail := c]) == FreeCount(fat) - 1
  {
    assert c in FreeSet(fat);
    assert FreeSet(fat[c := END_MARK][tail := c]) == FreeSet(fat) - {c};
  }

  /** Slots that are free now or could be after extending: it takes the free clusters for directories only. */
  ghost function Room(slots: seq<Slot>, v: View, spc: nat): nat {
    |slots| + Times(FreeCount(v.fat), 16 * spc)
  }

  lemma RoomKept(slots: seq<Slot>, v: View, w: View, owner: int, spc: nat)
    requires Lengthened(v, w, owner) && WellFormed(v.fat, v.chains) && WellFormed(w.fat, w.chains)
    ensures Room(slots + Zeros(16 * spc), w, spc) == Room(slots, v, spc)
  {
    hide WellFormed, Lengthened, FreeCount;
    LengthenedOnlyOwner(v, w, owner);
    TimesNext(FreeCount(w.fat), 16 * spc);
  }

  lemma RoomMeansFree(slots: seq<Slot>, v: View, spc: nat)
    requires Room(slots, v, spc) > |slots|
    ensures !NoneFree(v.fat)
  {
    if FreeCount(v.fat) > 0 {
      var c :| c in FreeSet(v.fat);
    }
  }

  // ----- creating an entry

  /** base, then zero slots to the end. */
  ghost predicate Filled(slots: seq<Slot>, base: seq<Slot>) {
    |base| <= |slots| && slots == base + Zeros(|slots| - |base|)
  }

  lemma FilledLonger(slots: seq<Slot>, base: seq<Slot>, n: nat)
    requires Filled(slots, base)
    ensures Filled(slots + Zeros(n), base)
  {
    assert Zeros(|slots| - |base|) + Zeros(n) == Zeros(|slots| + n - |base|);
  }

  lemma FilledOneMore(slots: seq<Slot>, base: seq<Slot>, slot: Slot)
    requires Filled(slots, base) && |base| < |slots|
    ensures Filled(slots[|base| := slot], base + [slot])
  {
  }

  /** The state of a directory that is being filled: the cursor is before the first zero slot. */
  ghost predicate Filling(c: Cursor, base: seq<Slot>, v: View, room: nat)
    reads c, c.d`sectors, c.d`fat, c.d`clusters, c.d`chains, c.d`ioFaults, c.d`fatFaults
  {
    && c.Valid() && c.dirSector != -1 && Filled(c.Slots(), base) && c.At() == |base| - 1
    && OnlyOwner(v, Snapshot(c.d), c.id) && Room(c.Slots(), Snapshot(c.d), c.d.geo.sectorsPerCluster) == room
  }

  /** Takes the next slot, which is free, extending the directory if need be, and writes 32 bytes into it. */
  method PutNext(c: Cursor, slot: Slot, ghost base: seq<Slot>, ghost v: View, ghost room: nat) returns (free: bool)
    requires Filling(c, base, v, room) && |base| < room
    modifies c, c.d`sectors, c.d`fat, c.d`clusters, c.d`chains, c.d`fatFaults, c.d`ioFaults
    ensures free && Filling(c, base + [slot], v, room)
  {
    free := TakeNext(c, base, v, room);
    if !free {
      return;
    }
    PutHere(c, slot, base, v, room);
  }

  /** The cursor stands on the first zero slot. */
  ghost predicate OnFree(c: Cursor, base: seq<Slot>, v: View, room: nat)
    reads c, c.d`sectors, c.d`fat, c.d`clusters, c.d`chains, c.d`ioFaults, c.d`fatFaults
  {
    && c.Valid() && c.OnSlot() && |base| < |c.Slots()| && Filled(c.Slots(), base) && c.At() == |base|
    && OnlyOwner(v, Snapshot(c.d), c.id) && Room(c.Slots(), Snapshot(c.d), c.d.geo.sectorsPerCluster) == room
  }

  /** What a call of read_next_direntry_and_assure_is_free leaves behind when it stands before the first zero slot or the end. */
  lemma NextTaken(slots: seq<Slot>, slots': seq<Slot>, base: seq<Slot>, v: View, was: View, now: View, owner: int, spc: nat)
    requires Filled(slots, base) && OnlyOwner(v, was, owner) && spc > 0
    requires WellFormed(was.fat, was.chains) && WellFormed(now.fat, now.chains)
    requires |base| < |slots| ==> Unchanged(was, now)
    requires |base| == |slots| ==> Lengthened(was, now, owner)
    requires slots' == slots + Zeros(if |base| < |slots| then 0 else 16 * spc)
    ensures |base| < |slots'| && Filled(slots', base) && OnlyOwner(v, now, owner)
    ensures Room(slots', now, spc) == Room(slots, was, spc)
    ensures slots'[|base|] == ZeroSlot() && CanRead(slots', |base|) && IsFree(slots', |base|) && ReadAt(slots', |base|).last == |base|
  {
    hide Times, WellFormed, ReadAt, IsFree, CanRead, OnlyOwner, Lengthened, Room;
    if |base| < |slots| {
      assert slots + Zeros(0) == slots;
    } else {
      FilledLonger(slots, base, 16 * spc);
      LengthenedOnlyOwner(was, now, owner);
      OnlyOwnerChain(v, was, now, owner);
      RoomKept(slots, was, now, owner, spc);
    }
    ReadZero(slots', |base|);
  }

  /** Before the first zero slot, or before the end with a cluster to spare, the next read is possible. */
  lemma NextPossible(slots: seq<Slot>, base: seq<Slot>, v: View, spc: nat)
    requires Filled(slots, base) && |base| < Room(slots, v, spc)
    ensures if |base| < |slots| then CanRead(slots, |base|) else !NoneFree(v.fat)
  {
    hide Times, ReadAt, CanRead, Room;
    if |base| < |slots| {
      ReadZero(slots, |base|);
    } else {
      RoomMeansFree(slots, v, spc);
    }
  }

  method TakeNext(c: Cursor, ghost base: seq<Slot>, ghost v: View, ghost room: nat) returns (free: bool)
    requires Filling(c, base, v, room) && |base| < room
    modifies c, c.d`sectors, c.d`fat, c.d`clusters, c.d`chains, c.d`fatFaults, c.d`ioFaults
    ensures free && OnFree(c, base, v, room)
  {
    hide Times, Quot, Rem, SlotsIn, WellFormed, ShortName, Cursor.Placed, ReadAt, IsFree, CanRead, OnlyOwner, Lengthened, Room;
    ghost var slots := c.Slots();
    ghost var was := Snapshot(c.d);
    ghost var spc := c.d.geo.sectorsPerCluster;
    NextPossible(slots, base, was, spc);
    var de;
    free, de := ReadNextAssureFree(c);
    NextTaken(slots, c.Slots(), base, v, was, Snapshot(c.d), c.id, spc);
  }

  method PutHere(c: Cursor, slot: Slot, ghost base: seq<Slot>, ghost v: View, ghost room: nat)
    requires OnFree(c, base, v, room)
    modifies c`dirSectorBuffer, c.d`sectors, c.d`clusters, c.d`ioFaults
    ensures Filling(c, base + [slot], v, room)
  {
    hide Times, Quot, Rem, SlotsIn, Cursor.Placed, IsChain, Covered;
    FilledOneMore(c.Slots(), base, slot);
    ghost var was := Snapshot(c.d);
    c.Put(slot);
    OthersUntouched(was, Snapshot(c.d), c.id);
    OnlyOwnerChain(v, was, Snapshot(c.d), c.id);
  }

  lemma OthersUntouched(v: View, w: View, owner: int)
    requires WellFormed(v.fat, v.chains) && owner in v.chains && w.fat == v.fat && w.chains == v.chains && |w.clusters| == |v.clusters|
    requires forall c :: 0 <= c < |v.clusters| && c !in v.chains[owner] ==> w.clusters[c] == v.clusters[c]
    ensures OnlyOwner(v, w, owner)
  {
    hide IsChain, Covered, VR.Reaches;
    VR.ReachesItself(VR.Tables(v.fat, v.chains), {owner});
  }
}
