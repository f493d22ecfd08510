/**
 * A directory as a sequence of 32-byte slots: what fat_readdir makes of it, and
 * what the creation and deletion of entries do to the list of files it shows.
 */
module DirRecords {
  import opened Bytes
  import opened LongNames
  import opened ShortNames

  /** A slot that starts or continues a long name for fat_readdir's outer test. */
  predicate IsVfat(s: Slot) {
    s[0x0B] == 0x0F && s[0] != 0x00 && s[0] != 0xE5
  }

  /** The long-name loop that starts at slot i stops before the directory ends. */
  predicate RunEnds(slots: seq<Slot>, i: nat)
    decreases |slots| - i
  {
    && i + 1 < |slots| && EntryNumber(slots[i]) >= 1
    && (slots[i + 1][0x0B] != 0x0F || EntryNumber(slots[i]) == 1 || RunEnds(slots, i + 1))
  }

  /** The slot after the long name, its characters, and whether a deleted slot was among them. */
  function LongRun(slots: seq<Slot>, i: nat, name: seq<byte>): (r: (nat, seq<byte>, bool))
    requires RunEnds(slots, i) && |name| == NAME_ROOM
    ensures i < r.0 < |slots| && |r.1| == NAME_ROOM
    decreases |slots| - i
  {
    var name' := StoreChars(name, slots[i]);
    if slots[i + 1][0x0B] != 0x0F || EntryNumber(slots[i]) == 1 then (i + 1, name', slots[i][0] == 0xE5)
    else
      var r := LongRun(slots, i + 1, name');
      (r.0, r.1, r.2 || slots[i][0] == 0xE5)
  }

  /** What fat_readdir reports of the last slot it looked at. */
  datatype Kind = Hidden | FreeSlot | Named

  function KindOf(vfat: bool, name: seq<byte>, deleted: bool, s: Slot): Kind
    requires |name| == NAME_ROOM
  {
    if vfat && name[0] == 0x2E then Hidden
    else if deleted || s[0] == 0xE5 then Hidden
    else if s[0] == 0x00 then FreeSlot
    else if s[0x0B] == 0x08 || s[0x0B] / 2 % 2 == 1 then Hidden
    else if s[0x0B] == 0 && ShortName(s) == [] then FreeSlot
    else Named
  }

  /** One call of fat_readdir whose first slot is i: the slot it ends on, whether it saw a long name, the name, and the kind. */
  datatype DirRead = DirRead(last: nat, vfat: bool, name: seq<byte>, kind: Kind)

  predicate CanRead(slots: seq<Slot>, i: nat) {
    i < |slots| && (IsVfat(slots[i]) ==> RunEnds(slots, i))
  }

  function ReadAt(slots: seq<Slot>, i: nat): (r: DirRead)
    requires CanRead(slots, i)
    ensures i <= r.last < |slots|
  {
    if IsVfat(slots[i]) then
      var run := LongRun(slots, i, EmptyName());
      DirRead(run.0, true, CString(run.1), KindOf(true, run.1, run.2, slots[run.0]))
    else DirRead(i, false, [], KindOf(false, EmptyName(), false, slots[i]))
  }

  /** The test of read_next_direntry_and_assure_is_free. */
  predicate IsFree(slots: seq<Slot>, i: nat)
    requires CanRead(slots, i)
  {
    var r := ReadAt(slots, i);
    !r.vfat && r.kind.FreeSlot?
  }

  // ----- the listing

  /** A file as the walk shows it: its long name and its 8.3 slot. */
  datatype Item = Item(name: seq<byte>, short: Slot)

  function Show(slots: seq<Slot>, r: DirRead): seq<Item>
    requires r.last < |slots|
  {
    if r.kind.Named? && ShortName(slots[r.last]) != [] then [Item(r.name, slots[r.last])] else []
  }

  predicate Readable(slots: seq<Slot>) {
    forall i :: 0 <= i < |slots| && IsVfat(slots[i]) ==> RunEnds(slots, i)
  }

  /** The files that repeated calls of fat_readdir report from slot i to the end of the directory. */
  function Listing(slots: seq<Slot>, i: nat): seq<Item>
    requires Readable(slots)
    decreases |slots| - i
  {
    if i >= |slots| then []
    else
      var r := ReadAt(slots, i);
      Show(slots, r) + Listing(slots, r.last + 1)
  }

  // ----- well-formed directories

  /** A deleted slot, or a file: the entries of its long name, if it has one, and its 8.3 slot. */
  datatype Record = Gone(slot: Slot) | File(name: seq<byte>, entries: seq<Slot>, short: Slot)

  ghost predicate ValidRecord(r: Record) {
    match r
    case Gone(slot) => slot[0] == 0xE5
    case File(name, entries, short) =>
      && short[0] != 0x00 && short[0] != 0xE5 && short[0x0B] != 0x0F && !(short[0x0B] == 0 && ShortName(short) == [])
      && (if name == [] then entries == [] else LongName(name) && exists checksum :: AreEntries(entries, name, checksum))
  }

  function SlotsOf(r: Record): seq<Slot> {
    match r
    case Gone(slot) => [slot]
    case File(_, entries, short) => entries + [short]
  }

  /** What the walk shows of a record. */
  function ItemOf(r: Record): seq<Item> {
    match r
    case Gone(_) => []
    case File(name, _, short) =>
      if (name != [] && name[0] == 0x2E) || short[0x0B] == 0x08 || short[0x0B] / 2 % 2 == 1 || ShortName(short) == [] then []
      else [Item(name, short)]
  }

  /**
   * What a listing is meant to show: a slot in use that is neither the volume's name nor
   * hidden, with some byte of a name in it, unless the long name begins with a dot.
   */
  ghost predicate Visible(name: seq<byte>, short: Slot) {
    && short[0] != 0x00 && short[0] != 0xE5 && short[0x0B] != 0x08 && short[0x0B] as int / 2 % 2 == 0
    && (exists i :: 0 <= i <= 8 && short[i] != 0 && short[i] != 0x20)
    && !(name != [] && name[0] == 0x2E)
  }

  /** The walk shows exactly the files it is meant to show. */
  lemma ShownExactly(r: Record)
    requires ValidRecord(r) && r.File?
    ensures ItemOf(r) == if Visible(r.name, r.short) then [Item(r.name, r.short)] else []
  {
    NamedExactly(r.short);
  }

  function Flatten(rs: seq<Record>): seq<Slot> {
    if rs == [] then [] else SlotsOf(rs[0]) + Flatten(rs[1..])
  }

  function Items(rs: seq<Record>): seq<Item> {
    if rs == [] then [] else ItemOf(rs[0]) + Items(rs[1..])
  }

  function ZeroSlot(): (s: Slot)
    ensures forall i :: 0 <= i < 32 ==> s[i] == 0
  {
    seq<byte>(32, _ => 0)
  }

  function Zeros(k: nat): (z: seq<Slot>)
    ensures |z| == k && forall i :: 0 <= i < k ==> z[i] == ZeroSlot()
  {
    seq<Slot>(k, _ => ZeroSlot())
  }

  /** The records, then zero slots to the end. */
  ghost predicate HoldsRecords(slots: seq<Slot>, rs: seq<Record>) {
    && (forall i :: 0 <= i < |rs| ==> ValidRecord(rs[i]))
    && |Flatten(rs)| <= |slots|
    && slots == Flatten(rs) + Zeros(|slots| - |Flatten(rs)|)
  }

  // ----- reading is local

  lemma {:induction false} RunEndsShift(a: seq<Slot>, s: seq<Slot>, i: nat)
    ensures RunEnds(a + s, |a| + i) <==> RunEnds(s, i)
    decreases |s| - i
  {
    hide EntryNumber;
    if i + 1 < |s| {
      assert (a + s)[|a| + i] == s[i] && (a + s)[|a| + i + 1] == s[i + 1];
      RunEndsShift(a, s, i + 1);
    }
  }

  lemma {:induction false} LongRunShift(a: seq<Slot>, s: seq<Slot>, i: nat, name: seq<byte>)
    requires RunEnds(s, i) && RunEnds(a + s, |a| + i) && |name| == NAME_ROOM
    ensures var r, r' := LongRun(s, i, name), LongRun(a + s, |a| + i, name);
            r' == (|a| + r.0, r.1, r.2)
    decreases |s| - i
  {
    hide EntryNumber, StoreChars;
    assert (a + s)[|a| + i] == s[i] && (a + s)[|a| + i + 1] == s[i + 1];
    if !(s[i + 1][0x0B] != 0x0F || EntryNumber(s[i]) == 1) {
      LongRunShift(a, s, i + 1, StoreChars(name, s[i]));
    }
  }

  lemma ReadShift(a: seq<Slot>, s: seq<Slot>, i: nat)
    requires CanRead(s, i)
    ensures CanRead(a + s, |a| + i) && ReadAt(a + s, |a| + i) == ReadAt(s, i).(last := |a| + ReadAt(s, i).last)
    ensures Show(a + s, ReadAt(a + s, |a| + i)) == Show(s, ReadAt(s, i))
  {
    hide LongRun, EmptyName, ShortName, RunEnds, CString;
    assert (a + s)[|a| + i] == s[i];
    RunEndsShift(a, s, i);
    if IsVfat(s[i]) {
      LongRunShift(a, s, i, EmptyName());
    }
    assert (a + s)[|a| + ReadAt(s, i).last] == s[ReadAt(s, i).last];
  }

  lemma {:induction false} ListingShift(a: seq<Slot>, s: seq<Slot>, i: nat)
    requires Readable(a + s) && Readable(s)
    ensures Listing(a + s, |a| + i) == Listing(s, i)
    decreases |s| - i
  {
    hide ReadAt, Show, RunEnds, IsVfat;
    if i < |s| {
      assert CanRead(s, i);
      ReadShift(a, s, i);
      ListingShift(a, s, ReadAt(s, i).last + 1);
    }
  }

  // ----- reading one record

  /** The entries of a long name, read from the i-th on with the earlier ones already in the buffer. */
  lemma {:induction false} NameRun(es: seq<Slot>, short: Slot, s: seq<Slot>, name: seq<byte>, checksum: byte, i: nat)
    requires LongName(name) && AreEntries(es, name, checksum) && short[0x0B] != 0x0F && i < |es|
    ensures RunEnds(es + [short] + s, i)
    ensures forall k :: 0 <= k < |es| ==> EntryNumber(es[k]) >= 1
    ensures LongRun(es + [short] + s, i, ReadEntries(EmptyName(), es[..i])) == (|es|, ReadEntries(EmptyName(), es), false)
    decreases |es| - i
  {
    hide EntryNumber, StoreChars, EmptyName, IsEntry;
    var all := es + [short] + s;
    forall k | 0 <= k < |es| ensures EntryNumber(es[k]) == |es| - k && all[k] == es[k] && es[k][0] != 0xE5 && es[k][0x0B] == 0x0F {
      EntryNumbers(es[k], name, |es| - k, checksum);
      EntryMarks(es[k], name, |es| - k, checksum);
    }
    assert all[|es|] == short;
    assert es[..i + 1][..i] == es[..i];
    assert ReadEntries(EmptyName(), es[..i + 1]) == StoreChars(ReadEntries(EmptyName(), es[..i]), es[i]);
    if i + 1 < |es| {
      NameRun(es, short, s, name, checksum, i + 1);
    } else {
      assert es[..i + 1] == es;
    }
  }

  lemma EntryMarks(e: Slot, name: seq<byte>, n: nat, checksum: byte)
    requires IsEntry(e, name, n, checksum) && |name| <= 255
    ensures e[0] != 0x00 && e[0] != 0xE5 && e[0x0B] == 0x0F
  {
  }

  /** fat_readdir on a record: it takes all its slots and shows the record's item; only a free slot counts as free. */
  lemma ReadRecord(r: Record, s: seq<Slot>)
    requires ValidRecord(r)
    ensures var slots := SlotsOf(r) + s;
            CanRead(slots, 0) && ReadAt(slots, 0).last == |SlotsOf(r)| - 1 && Show(slots, ReadAt(slots, 0)) == ItemOf(r) && !IsFree(slots, 0)
  {
    hide RunEnds, LongRun, EmptyName, AreEntries, IsEntry, ShortName, CString;
    var slots := SlotsOf(r) + s;
    if r.File? && r.name != [] {
      var checksum :| AreEntries(r.entries, r.name, checksum);
      LongRecord(r.name, r.entries, r.short, s, checksum);
    } else if r.File? {
      assert slots[0] == r.short;
    } else {
      assert slots[0] == r.slot;
    }
  }

  lemma LongRecord(name: seq<byte>, es: seq<Slot>, short: Slot, s: seq<Slot>, checksum: byte)
    requires LongName(name) && AreEntries(es, name, checksum) && short[0x0B] != 0x0F && short[0] != 0x00 && short[0] != 0xE5
    ensures var slots := es + [short] + s;
            && IsVfat(slots[0]) && CanRead(slots, 0)
            && ReadAt(slots, 0).last == |es| && ReadAt(slots, 0).name == name && ReadAt(slots, 0).vfat && slots[|es|] == short
            && (ReadAt(slots, 0).kind.Hidden? <==> name[0] == 0x2E || short[0x0B] == 0x08 || short[0x0B] / 2 % 2 == 1)
            && (ReadAt(slots, 0).kind.FreeSlot? ==> short[0x0B] == 0 && ShortName(short) == [])
  {
    hide RunEnds, LongRun, EmptyName, IsEntry, StoreChars, EntryNumber, ShortName;
    var slots := es + [short] + s;
    assert slots[0] == es[0];
    EntryMarks(es[0], name, |es|, checksum);
    assert es[..0] == [];
    NameRun(es, short, s, name, checksum, 0);
    NameRoundTrip(es, name, checksum);
    var buffer := ReadEntries(EmptyName(), es);
    assert CString(buffer) == buffer[..|name|] == name;
    assert buffer[0] == name[0];
  }

  lemma ReadZero(s: seq<Slot>, i: nat)
    requires i < |s| && s[i] == ZeroSlot()
    ensures CanRead(s, i) && IsFree(s, i) && ReadAt(s, i).last == i && Show(s, ReadAt(s, i)) == []
  {
  }

  // ----- whole directories

  lemma {:induction false} NoRunInZeros(k: nat)
    ensures Readable(Zeros(k)) && Listing(Zeros(k), 0) == []
  {
    ZerosListNothing(k, 0);
  }

  lemma {:induction false} ZerosListNothing(k: nat, i: nat)
    ensures Readable(Zeros(k)) && Listing(Zeros(k), i) == []
    decreases k - i
  {
    if i < k {
      ReadZero(Zeros(k), i);
      ZerosListNothing(k, i + 1);
    }
  }

  lemma ReadableRecord(r: Record, s: seq<Slot>)
    requires ValidRecord(r) && Readable(s)
    ensures Readable(SlotsOf(r) + s)
  {
    hide RunEnds, AreEntries, LongName;
    var a := SlotsOf(r);
    var slots := a + s;
    assert r.File? ==> slots[|r.entries|] == r.short;
    assert r.Gone? ==> slots[0] == r.slot;
    var long := if r.File? then |r.entries| else 0;
    forall i | 0 <= i < |slots| && (i < long || (i >= |a| && IsVfat(slots[i]))) ensures RunEnds(slots, i) {
      if i < long {
        var checksum :| AreEntries(r.entries, r.name, checksum);
        NameRun(r.entries, r.short, s, r.name, checksum, i);
      } else {
        assert slots[i] == s[i - |a|];
        RunEndsShift(a, s, i - |a|);
      }
    }
  }

  /** The walk over a well-formed directory shows exactly the items of its records, in order. */
  lemma {:induction false} WalkShowsRecords(slots: seq<Slot>, rs: seq<Record>)
    requires HoldsRecords(slots, rs)
    ensures Readable(slots) && Listing(slots, 0) == Items(rs)
    decreases |rs|
  {
    hide ReadAt, Show, ValidRecord, ItemOf, SlotsOf;
    if rs == [] {
      NoRunInZeros(|slots|);
      assert slots == Zeros(|slots|);
    } else {
      var a := SlotsOf(rs[0]);
      var s := slots[|a|..];
      assert Flatten(rs) == a + Flatten(rs[1..]);
      assert s == Flatten(rs[1..]) + Zeros(|slots| - |Flatten(rs)|);
      assert slots == a + s;
      WalkShowsRecords(s, rs[1..]);
      ReadableRecord(rs[0], s);
      ReadRecord(rs[0], s);
      ListingShift(a, s, 0);
    }
  }

  lemma {:induction false} FlattenConcat(a: seq<Record>, b: seq<Record>)
    ensures Flatten(a + b) == Flatten(a) + Flatten(b) && Items(a + b) == Items(a) + Items(b)
  {
    hide SlotsOf, ItemOf;
    if a == [] {
      assert a + b == b;
    } else {
      assert (a + b)[1..] == a[1..] + b;
      FlattenConcat(a[1..], b);
    }
  }

  /** Overlay of new slots from slot f on. */
  function Overwrite(slots: seq<Slot>, f: nat, news: seq<Slot>): (r: seq<Slot>)
    requires f + |news| <= |slots|
    ensures |r| == |slots|
    ensures forall i :: 0 <= i < |slots| ==> r[i] == if f <= i < f + |news| then news[i - f] else slots[i]
  {
    slots[..f] + news + slots[f + |news|..]
  }

  /** Writing the slots of a file over the first zero slots adds its item at the end of the walk. */
  lemma CreatedWalk(slots: seq<Slot>, rs: seq<Record>, r: Record)
    requires HoldsRecords(slots, rs) && ValidRecord(r) && |Flatten(rs)| + |SlotsOf(r)| <= |slots|
    ensures var slots' := Overwrite(slots, |Flatten(rs)|, SlotsOf(r));
            HoldsRecords(slots', rs + [r]) && Readable(slots') && Listing(slots', 0) == Items(rs) + ItemOf(r)
  {
    hide ValidRecord, ItemOf, SlotsOf, Listing, Readable;
    var f := |Flatten(rs)|;
    var slots' := Overwrite(slots, f, SlotsOf(r));
    FlattenConcat(rs, [r]);
    FlattenOne(r);
    assert slots'[..f] == Flatten(rs);
    assert slots' == Flatten(rs + [r]) + Zeros(|slots| - |Flatten(rs + [r])|);
    WalkShowsRecords(slots', rs + [r]);
  }

  function GoneSlot(): (s: Slot) { ZeroSlot()[0 := 0xE5] }

  function GoneRecords(n: nat): (rs: seq<Record>)
    ensures |rs| == n && forall i :: 0 <= i < n ==> rs[i] == Gone(GoneSlot())
  {
    seq(n, _ => Gone(GoneSlot()))
  }

  lemma {:induction false} FlattenGone(n: nat)
    ensures |Flatten(GoneRecords(n))| == n && Items(GoneRecords(n)) == []
    ensures forall i :: 0 <= i < n ==> Flatten(GoneRecords(n))[i] == GoneSlot()
  {
    if n > 0 {
      FlattenGone(n - 1);
      assert GoneRecords(n)[1..] == GoneRecords(n - 1);
    }
  }

  lemma {:induction false} FlattenThree(a: seq<Record>, b: seq<Record>, c: seq<Record>)
    ensures Flatten(a + b + c) == Flatten(a) + Flatten(b) + Flatten(c) && Items(a + b + c) == Items(a) + Items(b) + Items(c)
  {
    FlattenConcat(a + b, c);
    FlattenConcat(a, b);
  }

  lemma ValidReplaced(a: seq<Record>, r: Record, c: seq<Record>, n: nat)
    requires forall i :: 0 <= i < |a + [r] + c| ==> ValidRecord((a + [r] + c)[i])
    ensures forall i :: 0 <= i < |a + GoneRecords(n) + c| ==> ValidRecord((a + GoneRecords(n) + c)[i])
  {
    hide AreEntries, LongName;
    var rs, rs' := a + [r] + c, a + GoneRecords(n) + c;
    assert ValidRecord(Gone(GoneSlot()));
    forall i | 0 <= i < |rs'| ensures ValidRecord(rs'[i]) {
      if i < |a| {
        assert rs'[i] == rs[i];
      } else if i >= |a| + n {
        assert rs'[i] == rs[i - n + 1];
      }
    }
  }

  /** Wiping the slots of a record takes its item out of the walk and leaves the others in place. */
  lemma WipedWalk(slots: seq<Slot>, before: seq<Record>, r: Record, after: seq<Record>)
    requires HoldsRecords(slots, before + [r] + after)
    ensures var n := |SlotsOf(r)|;
            var f := |Flatten(before)|;
            && f + n <= |slots|
            && var slots' := Overwrite(slots, f, Wiped(n));
               HoldsRecords(slots', before + GoneRecords(n) + after) && Readable(slots') && Listing(slots', 0) == Items(before) + Items(after)
  {
    hide *;
    HoldsReplaced(slots, before, r, after);
    ItemsReplaced(before, after, |SlotsOf(r)|);
    WalkShowsRecords(Overwrite(slots, |Flatten(before)|, Wiped(|SlotsOf(r)|)), before + GoneRecords(|SlotsOf(r)|) + after);
  }

  lemma ItemsReplaced(before: seq<Record>, after: seq<Record>, n: nat)
    ensures Items(before + GoneRecords(n) + after) == Items(before) + Items(after)
  {
    hide ItemOf, SlotsOf, Flatten, Items, GoneRecords;
    FlattenThree(before, GoneRecords(n), after);
    WipedFlatten(n);
    assert Items(before) + [] == Items(before);
  }

  lemma HoldsReplaced(slots: seq<Slot>, before: seq<Record>, r: Record, after: seq<Record>)
    requires HoldsRecords(slots, before + [r] + after)
    ensures |Flatten(before)| + |SlotsOf(r)| <= |slots|
    ensures HoldsRecords(Overwrite(slots, |Flatten(before)|, Wiped(|SlotsOf(r)|)), before + GoneRecords(|SlotsOf(r)|) + after)
  {
    hide ValidRecord, ItemOf, SlotsOf, Overwrite, Flatten, Items, GoneRecords, Zeros;
    var n := |SlotsOf(r)|;
    FlattenThree(before, [r], after);
    FlattenThree(before, GoneRecords(n), after);
    FlattenOne(r);
    WipedFlatten(n);
    ValidReplaced(before, r, after, n);
    MiddleReplaced(slots, Flatten(before), SlotsOf(r), Flatten(after), Wiped(n));
  }

  lemma WipedFlatten(n: nat)
    ensures Flatten(GoneRecords(n)) == Wiped(n) && Items(GoneRecords(n)) == []
  {
    FlattenGone(n);
  }

  lemma MiddleReplaced(slots: seq<Slot>, a: seq<Slot>, b: seq<Slot>, c: seq<Slot>, b': seq<Slot>)
    requires |a + b + c| <= |slots| && slots == a + b + c + Zeros(|slots| - |a + b + c|) && |b| == |b'|
    ensures Overwrite(slots, |a|, b') == a + b' + c + Zeros(|slots| - |a + b' + c|)
  {
  }

  lemma FlattenOne(r: Record)
    ensures Flatten([r]) == SlotsOf(r) && Items([r]) == ItemOf(r)
  {
    assert [r][1..] == [];
  }

  function Wiped(n: nat): (w: seq<Slot>)
    ensures |w| == n && forall i :: 0 <= i < n ==> w[i] == GoneSlot()
  {
    seq<Slot>(n, _ => GoneSlot())
  }
}
