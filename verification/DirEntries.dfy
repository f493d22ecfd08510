/** Creation and wiping of whole directory entries. */
module DirEntries {
  import opened Bytes
  import opened Arith
  import opened Chains
  import opened LongNames
  import opened ShortNames
  import opened DirRecords
  import opened DirCursor
  import opened Directory

  /** Reading at a record boundary of a well-formed directory. */
  lemma ReadRecordAt(slots: seq<Slot>, rs: seq<Record>, m: nat)
    requires HoldsRecords(slots, rs) && m < |rs|
    ensures var i := |Flatten(rs[..m])|;
            && i < |slots| && CanRead(slots, i) && !IsFree(slots, i)
            && ReadAt(slots, i).last == |Flatten(rs[..m + 1])| - 1 < |Flatten(rs)|
  {
    hide ReadAt, ValidRecord, SlotsOf, ItemOf, Show, CanRead;
    var a := Flatten(rs[..m]);
    assert rs == rs[..m] + rs[m..];
    FlattenConcat(rs[..m], rs[m..]);
    FlattenConcat(rs[..m], [rs[m]]);
    FlattenOne(rs[m]);
    assert rs[..m + 1] == rs[..m] + [rs[m]];
    assert rs[m..][1..] == rs[m + 1..] && rs[m..][0] == rs[m];
    var rest := Flatten(rs[m + 1..]) + Zeros(|slots| - |Flatten(rs)|);
    assert slots == a + (SlotsOf(rs[m]) + rest);
    ReadRecord(rs[m], rest);
    ReadShift(a, SlotsOf(rs[m]) + rest, 0);
  }

  /**
   * find_contiguous_free_direntries: goes over the entries from the start; the
   * first slot that begins with 0 is taken to have only free slots behind it, and
   * the cursor is put before it.  A full directory is extended first.
   */
  method FindContiguousFree(c: Cursor, needed: nat, ghost rs: seq<Record>, ghost room: nat) returns (found: bool)
    requires c.Valid() && c.dirSector != -1 && c.At() == -1 && HoldsRecords(c.Slots(), rs) && needed > 0
    requires |Flatten(rs)| < Room(c.Slots(), Snapshot(c.d), c.d.geo.sectorsPerCluster) == room
    modifies c, c.d`sectors, c.d`fat, c.d`clusters, c.d`chains, c.d`fatFaults, c.d`ioFaults
    ensures found && Filling(c, Flatten(rs), old(Snapshot(c.d)), room)
  {
    hide Times, Quot, Rem, SlotsIn, WellFormed, ReadAt, IsFree, CanRead, Cursor.Placed, OnlyOwner, Lengthened, Room,
         Cursor.Marks, ValidRecord;
    ghost var v := Snapshot(c.d);
    ghost var slots := c.Slots();
    ghost var base := Flatten(rs);
    ghost var spc := c.d.geo.sectorsPerCluster;
    ghost var m := 0;
    assert rs[..0] == [];
    SameOwner(v, c.id);
    var foundStartFree, count, start := false, 0, NOWHERE;
    ghost var startIndex := 0;
    while count < needed
      invariant m <= |rs| && !foundStartFree && count == 0
      invariant c.Valid() && c.dirSector != -1 && c.Slots() == slots && Snapshot(c.d) == v
      invariant c.At() == |Flatten(rs[..m])| - 1
      decreases |rs| - m
    {
      if m < |rs| {
        ReadRecordAt(slots, rs, m);
      } else {
        assert rs[..m] == rs;
        NextPossible(slots, base, v, spc);
      }
      var free, de := ReadNextAssureFree(c);
      if m < |rs| {
        assert slots + Zeros(0) == slots;
      } else {
        NextTaken(slots, c.Slots(), base, v, v, Snapshot(c.d), c.id, spc);
      }
      if free {
        count := count + 1;
        if !foundStartFree {
          foundStartFree := true;
          start := c.Save();
          startIndex := c.index;
        }
        if de.raw[0] == 0x00 {
          count := needed;
          break;
        }
      } else {
        foundStartFree := false;
        count := 0;
      }
      m := m + 1;
    }
    if count == needed {
      c.RestoreBefore(start, startIndex);
      return true;
    }
    return false;
  }

  /** An 8.3 slot that stands for a file. */
  predicate FileSlot(short: Slot) {
    short[0] != 0x00 && short[0] != 0xE5 && short[0x0B] != 0x0F && !(short[0x0B] == 0 && ShortName(short) == [])
  }

  function SlotsNeeded(name: seq<byte>, needsLong: bool): (n: nat)
    ensures n >= 1
  {
    if needsLong then 1 + NeededEntries(|name|) else 1
  }

  /** The long-name loop of create_directory_entry_for_item: entries n down to 1, each in the next free slot. */
  method WriteLongName(c: Cursor, name: seq<byte>, checksum: byte, ghost base: seq<Slot>, ghost v: View, ghost room: nat)
    returns (ok: bool, ghost es: seq<Slot>)
    requires LongName(name) && Filling(c, base, v, room) && |base| + NeededEntries(|name|) < room
    modifies c, c.d`sectors, c.d`fat, c.d`clusters, c.d`chains, c.d`fatFaults, c.d`ioFaults
    ensures ok && AreEntries(es, name, checksum) && Filling(c, base + es, v, room)
  {
    hide Filling, IsEntry, CharOffset;
    es := [];
    var n := NeededEntries(|name|);
    var seqId: nat := n;
    assert base + es == base;
    while seqId > 0
      invariant seqId <= n && |es| == n - seqId
      invariant forall i :: 0 <= i < |es| ==> IsEntry(es[i], name, n - i, checksum)
      invariant Filling(c, base + es, v, room)
      decreases seqId
    {
      var e := BuildEntry(name, seqId, checksum);
      ok := PutNext(c, e, base + es, v, room);
      if !ok {
        return;
      }
      assert base + es + [e] == base + (es + [e]);
      es := es + [e];
      seqId := seqId - 1;
    }
    ok := true;
  }

  /**
   * create_direntry_with_attrib from the search on: the entry goes over the first
   * zero slots of the directory, which is extended by zeroed clusters when they do
   * not suffice, and the walk then shows the old files and the new one behind them.
   */
  method CreateEntry(c: Cursor, name: seq<byte>, needsLong: bool, checksum: byte, short: Slot, ghost rs: seq<Record>)
    returns (ok: bool, ghost r: Record)
    requires c.Valid() && c.dirSector != -1 && c.At() == -1 && HoldsRecords(c.Slots(), rs)
    requires FileSlot(short) && (needsLong ==> LongName(name))
    requires |Flatten(rs)| + SlotsNeeded(name, needsLong) <= Room(c.Slots(), Snapshot(c.d), c.d.geo.sectorsPerCluster)
    modifies c, c.d`sectors, c.d`fat, c.d`clusters, c.d`chains, c.d`fatFaults, c.d`ioFaults
    ensures ok && c.Valid() && OnlyOwner(old(Snapshot(c.d)), Snapshot(c.d), c.id)
    ensures r.File? && r.name == (if needsLong then name else []) && r.short == short && |SlotsOf(r)| == SlotsNeeded(name, needsLong)
    ensures HoldsRecords(c.Slots(), rs + [r])
    ensures Readable(c.Slots()) && Listing(c.Slots(), 0) == Items(rs) + if Visible(r.name, short) then [Item(r.name, short)] else []
  {
    hide Filled, Visible, ItemOf, OnlyOwner, Room, IsEntry, ValidRecord, Cursor.Placed, Tree, SlotsIn, Zeros, Flatten, Readable, Listing, FileSlot;
    ghost var v := Snapshot(c.d);
    ghost var room := Room(c.Slots(), v, c.d.geo.sectorsPerCluster);
    r := File([], [], short);
    ok := FindContiguousFree(c, SlotsNeeded(name, needsLong), rs, room);
    if !ok {
      return;
    }
    ghost var base := Flatten(rs);
    if needsLong {
      ghost var es;
      ok, es := WriteLongName(c, name, checksum, base, v, room);
      if !ok {
        return;
      }
      r := File(name, es, short);
    }
    ghost var es := r.entries;
    assert !needsLong ==> base + es == base;
    ValidFile(r, checksum);
    ok := PutNext(c, short, base + es, v, room);
    CreatedHolds(c.Slots(), rs, r);
    ShownExactly(r);
  }

  lemma ValidFile(r: Record, checksum: byte)
    requires r.File? && FileSlot(r.short)
    requires if r.name == [] then r.entries == [] else LongName(r.name) && AreEntries(r.entries, r.name, checksum)
    ensures ValidRecord(r)
  {
  }

  lemma CreatedHolds(slots: seq<Slot>, rs: seq<Record>, r: Record)
    requires (forall i :: 0 <= i < |rs| ==> ValidRecord(rs[i])) && ValidRecord(r)
    requires r.File? && Filled(slots, Flatten(rs) + r.entries + [r.short])
    ensures HoldsRecords(slots, rs + [r]) && Readable(slots) && Listing(slots, 0) == Items(rs) + ItemOf(r)
  {
    hide ValidRecord, ItemOf, Listing, Readable;
    FlattenConcat(rs, [r]);
    FlattenOne(r);
    assert Flatten(rs) + r.entries + [r.short] == Flatten(rs) + (r.entries + [r.short]);
    WalkShowsRecords(slots, rs + [r]);
  }

  // ----- wiping an entry

  /** The first n slots from slot first on are wiped, and only owner's directory has changed. */
  ghost predicate WipedSoFar(c: Cursor, slots: seq<Slot>, first: nat, n: nat, v: View)
    reads c, c.d`sectors, c.d`fat, c.d`clusters, c.d`chains, c.d`ioFaults, c.d`fatFaults
  {
    && c.Valid() && c.dirSector != -1 && first + n <= |slots|
    && c.Slots() == Overwrite(slots, first, Wiped(n)) && OnlyOwner(v, Snapshot(c.d), c.id)
  }

  lemma WipedOneMore(slots: seq<Slot>, first: nat, n: nat)
    requires first + n < |slots|
    ensures Overwrite(slots, first, Wiped(n))[first + n := GoneSlot()] == Overwrite(slots, first, Wiped(n + 1))
  {
  }

  /** Writes a deleted slot over the one the cursor stands on. */
  method WipeHere(c: Cursor, ghost slots: seq<Slot>, ghost first: nat, ghost n: nat, ghost v: View)
    requires WipedSoFar(c, slots, first, n, v) && c.OnSlot() && c.At() == first + n < |slots|
    modifies c`dirSectorBuffer, c.d`sectors, c.d`clusters, c.d`ioFaults
    ensures WipedSoFar(c, slots, first, n + 1, v) && c.OnSlot() && c.At() == first + n
  {
    hide Times, Quot, Rem, SlotsIn, Cursor.Placed, IsChain, Covered, Overwrite;
    ghost var was := Snapshot(c.d);
    c.Put(GoneSlot());
    WipedOneMore(slots, first, n);
    OthersUntouched(was, Snapshot(c.d), c.id);
    OnlyOwnerChain(v, was, Snapshot(c.d), c.id);
  }

  /** The slots of a long name and the 8.3 slot behind them. */
  method WipeLongName(c: Cursor, count: nat, ghost slots: seq<Slot>, ghost first: nat, ghost v: View)
    requires WipedSoFar(c, slots, first, 0, v) && c.At() == first - 1 && first + count < |slots|
    modifies c, c.d`sectors, c.d`clusters, c.d`ioFaults
    ensures WipedSoFar(c, slots, first, count + 1, v)
  {
    hide Times, Quot, Rem, SlotsIn, Tree, Overwrite, Cursor.Placed;
    var i := 0;
    while i < count
      invariant i <= count && WipedSoFar(c, slots, first, i, v) && c.At() == first + i - 1
    {
      var _ := c.Advance();
      WipeHere(c, slots, first, i, v);
      i := i + 1;
    }
    var _ := c.Advance();
    WipeHere(c, slots, first, i, v);
  }

  /** wipe_direntries_of_current_file_or_dir, right after fat_readdir has shown the entry. */
  method WipeEntry(c: Cursor, de: Dirent, ghost startIndex: nat, ghost first: nat)
    requires c.Valid() && Shows(c, de, startIndex, first)
    modifies c, c.d`sectors, c.d`clusters, c.d`ioFaults
    ensures first <= old(c.At()) < |old(c.Slots())|
    ensures WipedSoFar(c, old(c.Slots()), first, old(c.At()) + 1 - first, old(Snapshot(c.d)))
  {
    hide Times, Quot, Rem, SlotsIn, Tree, Overwrite, CanRead, Cursor.Placed, ReadAt, OnlyOwner;
    ghost var slots := c.Slots();
    ghost var v := Snapshot(c.d);
    ghost var last: nat := c.At();
    NothingWiped(c, first);
    if de.vfat {
      c.RestoreBefore(de.start, startIndex);
      WipeLongName(c, de.count, slots, first, v);
    } else {
      PlainEntry(slots, first);
      WipeHere(c, slots, first, 0, v);
    }
  }

  lemma PlainEntry(slots: seq<Slot>, first: nat)
    requires CanRead(slots, first) && !ReadAt(slots, first).vfat
    ensures ReadAt(slots, first).last == first
  {
  }

  lemma NothingWiped(c: Cursor, first: nat)
    requires c.Valid() && c.dirSector != -1 && first <= |c.Slots()|
    ensures WipedSoFar(c, c.Slots(), first, 0, Snapshot(c.d))
  {
    SameOwner(Snapshot(c.d), c.id);
    assert Overwrite(c.Slots(), first, Wiped(0)) == c.Slots();
  }

  /** Reading the entry of a file and wiping it: the walk then shows all the other files, in their order. */
  method DeleteEntry(c: Cursor, ghost before: seq<Record>, ghost r: Record, ghost after: seq<Record>) returns (raw: Slot)
    requires c.Valid() && c.dirSector != -1 && HoldsRecords(c.Slots(), before + [r] + after) && c.At() == |Flatten(before)| - 1
    modifies c, c.d`sectors, c.d`clusters, c.d`ioFaults
    ensures c.Valid() && OnlyOwner(old(Snapshot(c.d)), Snapshot(c.d), c.id) && |c.Slots()| == |old(c.Slots())|
    ensures Readable(c.Slots()) && Listing(c.Slots(), 0) == Items(before) + Items(after)
    ensures r.File? ==> raw == r.short
  {
    hide Times, Quot, Rem, SlotsIn, Tree, Cursor.Placed, Cursor.At, HoldsRecords, ReadAt, CanRead, IsFree, OnlyOwner,
         Readable, Listing, SlotsOf, Flatten, Items, Shows, WipedSoFar;
    ghost var slots := c.Slots();
    ghost var first := |Flatten(before)|;
    ghost var v := Snapshot(c.d);
    EntryOf(slots, before, r, after);
    var retVal, de, startIndex := ReadDir(c);
    ShownLast(c, de, startIndex, first);
    raw := de.raw;
    WipeEntry(c, de, startIndex, first);
    EntryWiped(c, slots, before, r, after, v);
  }

  lemma EntryWiped(c: Cursor, slots: seq<Slot>, before: seq<Record>, r: Record, after: seq<Record>, v: View)
    requires HoldsRecords(slots, before + [r] + after) && WipedSoFar(c, slots, |Flatten(before)|, |SlotsOf(r)|, v)
    ensures c.Valid() && OnlyOwner(v, Snapshot(c.d), c.id) && |c.Slots()| == |slots|
    ensures Readable(c.Slots()) && Listing(c.Slots(), 0) == Items(before) + Items(after)
  {
    hide HoldsRecords, Readable, Listing, Items, Tree, SlotsIn, Cursor.Placed, OnlyOwner, Flatten;
    WipedWalk(slots, before, r, after);
  }

  lemma ShownLast(c: Cursor, de: Dirent, startIndex: nat, first: nat)
    requires c.Valid() && Shows(c, de, startIndex, first)
    ensures CanRead(c.Slots(), first) && first <= c.At() == ReadAt(c.Slots(), first).last < |c.Slots()| && de.raw == c.Slots()[c.At()]
  {
  }

  lemma EntryOf(slots: seq<Slot>, before: seq<Record>, r: Record, after: seq<Record>)
    requires HoldsRecords(slots, before + [r] + after)
    ensures var first := |Flatten(before)|;
            first < |slots| && CanRead(slots, first) && ReadAt(slots, first).last == first + |SlotsOf(r)| - 1
    ensures var last := |Flatten(before)| + |SlotsOf(r)| - 1;
            0 <= last < |slots| && (r.File? ==> slots[last] == r.short)
  {
    hide ReadAt, ValidRecord, Show, CanRead, IsFree, ItemOf;
    var rs := before + [r] + after;
    assert rs[..|before|] == before && rs[..|before| + 1] == before + [r];
    ReadRecordAt(slots, rs, |before|);
    FlattenConcat(before, [r]);
    FlattenOne(r);
    FlattenConcat(before + [r], after);
    assert slots == Flatten(before) + SlotsOf(r) + Flatten(after) + Zeros(|slots| - |Flatten(rs)|);
  }
}
