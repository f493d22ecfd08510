/**
 * The directory cursor of mega65_ftp.c: cluster, sector in the cluster, offset in
 * the sector and the sector's bytes, over the cluster chain of one directory.  To
 * its callers it is an index into the directory's sequence of slots.
 */
module DirCursor {
  import opened Bytes
  import opened Arith
  import opened Chains
  import opened Volume
  import opened Contents
  import opened Allocator
  import opened LongNames
  import opened DirRecords
  import VR = VolumeRuns

  const SLOTS_PER_SECTOR: nat := 16

  /** Values of a cluster number from here on end a directory (get_next_cluster's mask is already off). */
  const END_OF_DIRECTORY: nat := 0xFFF_FFF0

  /** Slot o of a directory sector. */
  function SlotIn(sector: Sector, o: nat): Slot
    requires o < SLOTS_PER_SECTOR
  {
    sector[32 * o..32 * o + 32]
  }

  /** The slots of a directory, in the order of its chain. */
  ghost function SlotsIn(cl: Clusters, ch: seq<nat>, spc: nat): (r: seq<Slot>)
    requires Holds(cl, ch, spc)
    ensures |r| == 16 * Times(|ch|, spc)
    ensures forall i :: 0 <= i < |r| ==> r[i] == SlotIn(SectorAt(cl, ch, spc, i / 16), i % 16)
  {
    seq<Slot>(16 * Times(|ch|, spc), i requires 0 <= i < 16 * Times(|ch|, spc) => SlotIn(SectorAt(cl, ch, spc, i / 16), i % 16))
  }

  lemma SlotAt(cl: Clusters, ch: seq<nat>, spc: nat, j: nat, s: nat, o: nat)
    requires Holds(cl, ch, spc) && j < |ch| && s < spc && o < 16
    ensures 16 * (Times(j, spc) + s) + o < |SlotsIn(cl, ch, spc)|
    ensures SlotsIn(cl, ch, spc)[16 * (Times(j, spc) + s) + o] == SlotIn(cl[ch[j]][s], o)
  {
    var k := Times(j, spc) + s;
    TimesMono(j, |ch|, spc);
    SamePlace(k, j, s, spc);
    assert (16 * k + o) / 16 == k && (16 * k + o) % 16 == o;
  }

  /** Replacing one slot of a sector replaces that slot of the directory. */
  lemma SlotReplaced(cl: Clusters, ch: seq<nat>, spc: nat, j: nat, s: nat, o: nat, sector: Sector, slot: Slot)
    requires Holds(cl, ch, spc) && Distinct(ch) && j < |ch| && s < spc && o < 16
    requires sector == cl[ch[j]][s][..32 * o] + slot + cl[ch[j]][s][32 * o + 32..]
    ensures Holds(Stored(cl, ch[j], s, sector), ch, spc)
    ensures 16 * (Times(j, spc) + s) + o < |SlotsIn(cl, ch, spc)|
    ensures SlotsIn(Stored(cl, ch[j], s, sector), ch, spc) == SlotsIn(cl, ch, spc)[16 * (Times(j, spc) + s) + o := slot]
  {
    hide Stored, SectorAt, Times, Quot, Rem, SlotIn;
    var cl' := Stored(cl, ch[j], s, sector);
    var k := Times(j, spc) + s;
    SectorStored(cl, ch, spc, j, s, sector);
    SlotAt(cl, ch, spc, j, s, o);
    SectorHere(cl, ch, spc, j, s);
    forall i | 0 <= i < 16 * Times(|ch|, spc)
      ensures SlotsIn(cl', ch, spc)[i] == if i == 16 * k + o then slot else SlotsIn(cl, ch, spc)[i]
    {
      SlotMoved(cl, cl', ch, spc, k, o, sector, slot, i);
    }
  }

  lemma SlotMoved(cl: Clusters, cl': Clusters, ch: seq<nat>, spc: nat, k: nat, o: nat, sector: Sector, slot: Slot, i: nat)
    requires Holds(cl, ch, spc) && Holds(cl', ch, spc) && k < Times(|ch|, spc) && o < 16 && i < 16 * Times(|ch|, spc)
    requires forall n :: 0 <= n < Times(|ch|, spc) ==> SectorAt(cl', ch, spc, n) == if n == k then sector else SectorAt(cl, ch, spc, n)
    requires sector == SectorAt(cl, ch, spc, k)[..32 * o] + slot + SectorAt(cl, ch, spc, k)[32 * o + 32..]
    ensures SlotsIn(cl', ch, spc)[i] == if i == 16 * k + o then slot else SlotsIn(cl, ch, spc)[i]
  {
    hide SectorAt, Times, Quot, Rem, SlotIn;
    if i / 16 == k {
      SlotOfPatched(SectorAt(cl, ch, spc, k), sector, o, slot, i % 16);
    }
  }

  lemma SectorHere(cl: Clusters, ch: seq<nat>, spc: nat, j: nat, s: nat)
    requires Holds(cl, ch, spc) && j < |ch| && s < spc
    ensures Times(j, spc) + s < Times(|ch|, spc)
    ensures SectorAt(cl, ch, spc, Times(j, spc) + s) == cl[ch[j]][s]
  {
    TimesMono(j, |ch|, spc);
    SamePlace(Times(j, spc) + s, j, s, spc);
  }

  lemma SlotOfPatched(was: Sector, sector: Sector, o: nat, slot: Slot, p: nat)
    requires o < 16 && p < 16 && sector == was[..32 * o] + slot + was[32 * o + 32..]
    ensures SlotIn(sector, p) == if p == o then slot else SlotIn(was, p)
  {
    forall i | 0 <= i < 32 ensures SlotIn(sector, p)[i] == (if p == o then slot else SlotIn(was, p))[i] {
      assert SlotIn(sector, p)[i] == sector[32 * p + i];
    }
  }

  /** A zeroed cluster behind the chain adds that many zero slots. */
  lemma SlotsExtended(cl: Clusters, cl': Clusters, ch: seq<nat>, c: nat, spc: nat)
    requires Holds(cl, ch, spc) && Holds(cl', ch + [c], spc) && |cl'| == |cl|
    requires forall x :: x in ch && x < |cl| ==> cl'[x] == cl[x]
    requires c < |cl'| && |cl'[c]| == spc && forall s :: 0 <= s < spc ==> cl'[c][s] == ZeroSector()
    ensures SlotsIn(cl', ch + [c], spc) == SlotsIn(cl, ch, spc) + Zeros(16 * spc)
  {
    hide SectorAt;
    SectorsFrame(cl, cl', ch, spc);
    SectorsPrefix(cl', ch, ch + [c], spc);
    var a, b := SlotsIn(cl, ch, spc), SlotsIn(cl', ch + [c], spc);
    forall i | 0 <= i < |b| ensures b[i] == (a + Zeros(16 * spc))[i] {
      if i >= |a| {
        var s := i / 16 - Times(|ch|, spc);
        SectorHere(cl', ch + [c], spc, |ch|, s);
        assert (ch + [c])[|ch|] == c;
        assert SlotIn(ZeroSector(), i % 16) == ZeroSlot();
      }
    }
  }

  /** The four numbers that find_contiguous_free_direntries and fat_readdir keep of a position. */
  datatype Mark = Mark(cluster: nat, sector: int, inCluster: nat, offset: int)

  class Cursor {
    const d: Disk
    ghost const id: int
    var dirCluster: nat
    var dirSector: int
    var dirSectorInCluster: nat
    var dirSectorOffset: int
    var dirSectorBuffer: Sector
    ghost var index: nat

    constructor (disk: Disk, ghost owner: int, first: nat)
      requires Tree(disk, owner) && disk.chains[owner][0] == first
      ensures d == disk && id == owner && Valid() && dirSector != -1 && At() == -1
    {
      hide WellFormed, FatsHold, DataImage, SlotsIn, Quot, Rem;
      d, id := disk, owner;
      dirCluster, dirSector, dirSectorInCluster, dirSectorOffset := first, 0, 0, -32;
      dirSectorBuffer, index := ZeroSector(), 0;
      new;
      OwnDirectory(disk, owner);
      dirSector := disk.geo.SectorOf(first, 0);
      var sector := LoadSector(first, 0);
      dirSectorBuffer := sector;
    }

    /** The directory is on the chain `id` of a well-formed volume, and the device answers. */
    ghost predicate Valid()
      reads this, d`sectors, d`fat, d`clusters, d`chains, d`ioFaults, d`fatFaults
    {
      Tree(d, id) && Placed()
    }

    /** Position, sector number and buffer belong together; a finished walk has no sector. */
    ghost predicate Placed()
      requires Tree(d, id)
      reads this, d`sectors, d`fat, d`clusters, d`chains, d`ioFaults, d`fatFaults
    {
      var ch := d.chains[id];
      && index < |ch| && dirCluster == ch[index] && 2 <= dirCluster < |d.clusters|
      && (if dirSector == -1 then index == |ch| - 1
          else
            && dirSectorInCluster < d.geo.sectorsPerCluster && |d.clusters[dirCluster]| == d.geo.sectorsPerCluster
            && dirSector == d.geo.SectorOf(dirCluster, dirSectorInCluster)
            && dirSectorBuffer == d.clusters[dirCluster][dirSectorInCluster]
            && -32 <= dirSectorOffset < 512 && dirSectorOffset % 32 == 0)
    }

    ghost function Slots(): (r: seq<Slot>)
      requires Tree(d, id)
      reads d`sectors, d`fat, d`clusters, d`chains, d`ioFaults, d`fatFaults
      ensures |r| == 16 * Times(|d.chains[id]|, d.geo.sectorsPerCluster)
    {
      OwnDirectory(d, id);
      SlotsIn(d.clusters, d.chains[id], d.geo.sectorsPerCluster)
    }

    /** The slot the cursor stands on; the number of slots when the walk is over. */
    ghost function At(): int
      requires Valid()
      reads this, d`sectors, d`fat, d`clusters, d`chains, d`ioFaults, d`fatFaults
    {
      if dirSector == -1 then 16 * Times(|d.chains[id]|, d.geo.sectorsPerCluster)
      else 16 * (Times(index, d.geo.sectorsPerCluster) + dirSectorInCluster) + dirSectorOffset / 32
    }

    /** A remembered position, valid while the chain only grows. */
    ghost predicate Marks(m: Mark, i: nat)
      requires Tree(d, id)
      reads d`sectors, d`fat, d`clusters, d`chains, d`ioFaults, d`fatFaults
    {
      var ch := d.chains[id];
      && i < |ch| && m.cluster == ch[i] && 2 <= m.cluster && m.inCluster < d.geo.sectorsPerCluster
      && m.sector == d.geo.SectorOf(m.cluster, m.inCluster)
      && 0 <= m.offset < 512 && m.offset % 32 == 0
    }

    ghost function Place(m: Mark, i: nat): int {
      16 * (Times(i, d.geo.sectorsPerCluster) + m.inCluster) + m.offset / 32
    }

    /** The cursor's fields, copied. */
    method Save() returns (m: Mark)
      requires Valid() && OnSlot()
      ensures Marks(m, index) && Place(m, index) == At()
    {
      m := Mark(dirCluster, dirSector, dirSectorInCluster, dirSectorOffset);
    }

    /** Back to the slot before a remembered position, for the advance that follows. */
    method RestoreBefore(m: Mark, ghost i: nat)
      requires Tree(d, id) && Marks(m, i)
      modifies this
      ensures Valid() && dirSector != -1 && At() == Place(m, i) - 1
    {
      hide Times, Quot, Rem, SlotsIn, WellFormed, FatsHold, DataImage;
      OwnDirectory(d, id);
      dirCluster, dirSector, dirSectorInCluster, dirSectorOffset, index := m.cluster, m.sector, m.inCluster, m.offset - 32, i;
      var sector := LoadSector(dirCluster, dirSectorInCluster);
      dirSectorBuffer := sector;
    }

    predicate OnSlot()
      reads this`dirSector, this`dirSectorOffset
    {
      dirSector != -1 && dirSectorOffset >= 0
    }

    /** read_sector of sector s of cluster c. */
    method LoadSector(c: nat, s: nat) returns (sector: Sector)
      requires d.Valid() && d.ioFaults == 0 && 2 <= c < |d.fat| && s < d.geo.sectorsPerCluster
      ensures |d.clusters| == |d.fat| && |d.clusters[c]| == d.geo.sectorsPerCluster
      ensures sector == d.clusters[c][s]
    {
      SectorInRange(d.geo, c, s);
      assert DataSector(d.geo, d.sectors, d.clusters, c, s);
      sector := d.sectors[d.geo.SectorOf(c, s)];
    }

    /** advance_to_next_entry: to the next slot, or past the end with -2. */
    method Advance() returns (retVal: int)
      requires Valid() && dirSector != -1
      modifies this
      ensures Valid() && Slots() == old(Slots())
      ensures old(At()) + 1 < |Slots()| ==> retVal == 0 && OnSlot()
      ensures old(At()) + 1 == |Slots()| ==> retVal == -2 && dirSector == -1
      ensures old(At()) + 1 <= |Slots()| && At() == old(At()) + 1
    {
      hide Quot, Rem, Times, SlotsIn, WellFormed, FatsHold, DataImage;
      LastPlace(index, |d.chains[id]|, dirSectorInCluster, dirSectorOffset / 32, d.geo.sectorsPerCluster);
      if dirSectorOffset + 32 == 512 {
        retVal := NextSector();
        if retVal == 0 {
          LastPlace(index, |d.chains[id]|, dirSectorInCluster, dirSectorOffset / 32, d.geo.sectorsPerCluster);
        }
      } else {
        dirSectorOffset := dirSectorOffset + 32;
        retVal := 0;
      }
    }

    /** The part of advance_to_next_entry behind the last slot of a sector. */
    method NextSector() returns (retVal: int)
      requires Valid() && dirSector != -1 && dirSectorOffset == 480
      modifies this
      ensures Valid() && At() == old(At()) + 1
      ensures if retVal == 0 then OnSlot() else retVal == -2 && dirSector == -1
    {
      hide Quot, Rem, Times, SlotsIn, WellFormed, FatsHold, DataImage;
      if dirSectorInCluster + 1 < d.geo.sectorsPerCluster {
        EnterSector(dirCluster, dirSector + 1, dirSectorInCluster + 1, index);
        return 0;
      }
      OwnDirectory(d, id);
      NextInChain(d.fat, d.chains[id], index);
      TimesNext(index, d.geo.sectorsPerCluster);
      var nextCluster := d.GetNextCluster(dirCluster);
      if nextCluster < END_OF_DIRECTORY && nextCluster != 0 {
        EnterSector(nextCluster, d.geo.SectorOf(nextCluster, 0), 0, index + 1);
        return 0;
      }
      dirSector := -1;
      return -2;
    }

    /** Puts the cursor on the first slot of sector s of a cluster of the chain. */
    method EnterSector(cluster: nat, sector: nat, s: nat, ghost i: nat)
      requires Tree(d, id) && i < |d.chains[id]| && d.chains[id][i] == cluster && 2 <= cluster && s < d.geo.sectorsPerCluster
      requires sector == d.geo.SectorOf(cluster, s)
      modifies this
      ensures Valid() && OnSlot() && dirSectorOffset == 0 && index == i && dirSectorInCluster == s && dirCluster == cluster
    {
      hide Quot, Rem, Times, SlotsIn, WellFormed, FatsHold, DataImage;
      OwnDirectory(d, id);
      dirCluster, dirSector, dirSectorInCluster, dirSectorOffset, index := cluster, sector, s, 0, i;
      var data := LoadSector(cluster, s);
      dirSectorBuffer := data;
    }

    /** The 32 bytes at the cursor. */
    method Current() returns (slot: Slot)
      requires Valid() && OnSlot()
      ensures 0 <= At() < |Slots()| && slot == Slots()[At()]
    {
      hide Quot, Rem, Times, SlotsIn;
      OwnDirectory(d, id);
      SlotAt(d.clusters, d.chains[id], d.geo.sectorsPerCluster, index, dirSectorInCluster, dirSectorOffset / 32);
      slot := dirSectorBuffer[dirSectorOffset..dirSectorOffset + 32];
    }

    /** Copies 32 bytes into the directory sector and writes it. */
    method Put(slot: Slot)
      requires Valid() && OnSlot()
      modifies this`dirSectorBuffer, d`sectors, d`clusters, d`ioFaults
      ensures Valid() && At() == old(At()) && OnSlot()
      ensures 0 <= old(At()) < |old(Slots())| && Slots() == old(Slots())[old(At()) := slot]
      ensures |d.clusters| == |old(d.clusters)| && forall c :: 0 <= c < |d.clusters| && c !in d.chains[id] ==> d.clusters[c] == old(d.clusters)[c]
    {
      hide Quot, Rem, Times, SlotsIn, WellFormed;
      OwnDirectory(d, id);
      ghost var ch := d.chains[id];
      ghost var cl := d.clusters;
      ghost var o := dirSectorOffset / 32;
      var sector: Sector := dirSectorBuffer[..dirSectorOffset] + slot + dirSectorBuffer[dirSectorOffset + 32..];
      SlotReplaced(cl, ch, d.geo.sectorsPerCluster, index, dirSectorInCluster, o, sector, slot);
      dirSectorBuffer := sector;
      var err := d.WriteSector(dirSector, dirCluster, dirSectorInCluster, sector);
      assert ch[index] in ch;
    }

    /** wipe_cluster */
    method WipeCluster(cluster: nat)
      requires d.Valid() && d.ioFaults == 0 && 2 <= cluster < |d.fat|
      modifies d`sectors, d`clusters, d`ioFaults
      ensures d.Valid() && d.ioFaults == 0 && |d.clusters| == |old(d.clusters)| == |d.fat|
      ensures |d.clusters[cluster]| == d.geo.sectorsPerCluster
      ensures forall s :: 0 <= s < d.geo.sectorsPerCluster ==> d.clusters[cluster][s] == ZeroSector()
      ensures forall c :: 0 <= c < |d.clusters| && c != cluster ==> d.clusters[c] == old(d.clusters)[c]
    {
      hide Times;
      var k := 0;
      while k < d.geo.sectorsPerCluster
        invariant k <= d.geo.sectorsPerCluster && d.Valid() && d.ioFaults == 0
        invariant |d.clusters| == |old(d.clusters)| == |d.fat| && |d.clusters[cluster]| == d.geo.sectorsPerCluster
        invariant forall s :: 0 <= s < k ==> d.clusters[cluster][s] == ZeroSector()
        invariant forall c :: 0 <= c < |d.clusters| && c != cluster ==> d.clusters[c] == old(d.clusters)[c]
      {
        var err := d.WriteSector(d.geo.SectorOf(cluster, k), cluster, k, ZeroSector());
        k := k + 1;
      }
    }

    /** wipe_cluster(0): the sector arithmetic gives sectors below the data area. */
    method WipeClusterZero()
      requires d.ioFaults == 0
      modifies d`sectors
      ensures d.sectors == Zeroed(old(d.sectors), d.geo.BelowData(), d.geo.sectorsPerCluster)
    {
      var sector: int := d.geo.FirstDataSector() - 2 * d.geo.sectorsPerCluster;
      var k: nat := 0;
      ZeroedNone(d.sectors, sector);
      while k < d.geo.sectorsPerCluster
        invariant k <= d.geo.sectorsPerCluster && d.ioFaults == 0 && d.sectors == Zeroed(old(d.sectors), d.geo.BelowData(), k)
      {
        ZeroedOneMore(old(d.sectors), sector, k);
        var err := d.WriteAny(sector + k, ZeroSector());
        k := k + 1;
      }
    }

    /**
     * extend_dir_cluster_chain, called past the end of a directory.  A free cluster
     * is linked behind it and zeroed, and the cursor stands before its first slot.
     * On a full volume cluster 0 is taken for the new cluster: image is the disk
     * before sectors below the data area are zeroed.
     */
    method Extend() returns (ok: bool, ghost image: seq<Sector>)
      requires Valid() && dirSector == -1
      modifies this, d`sectors, d`fat, d`clusters, d`chains, d`fatFaults, d`ioFaults
      ensures ok && (!old(NoneFree(d.fat)) ==> Valid() && dirSector != -1)
      ensures !old(NoneFree(d.fat)) ==> At() == |old(Slots())| - 1
      ensures !old(NoneFree(d.fat)) ==> Slots() == old(Slots()) + Zeros(16 * d.geo.sectorsPerCluster)
      ensures !old(NoneFree(d.fat)) ==> AddedOne(old(d.fat), old(d.chains), d.fat, d.chains, id)
      ensures !old(NoneFree(d.fat)) ==> |d.clusters| == |old(d.clusters)|
      ensures !old(NoneFree(d.fat)) ==> forall c :: 0 <= c < |d.clusters| && c !in d.chains[id] ==> d.clusters[c] == old(d.clusters)[c]
      ensures old(NoneFree(d.fat)) ==> d.chains == old(d.chains) && d.clusters == old(d.clusters) && dirCluster == 0 && dirSector == d.geo.BelowData()
      ensures old(NoneFree(d.fat)) ==> dirSectorOffset == -32 && dirSectorInCluster == 0
      ensures old(NoneFree(d.fat)) && 0 <= dirSector < |d.sectors| ==> dirSectorBuffer == d.sectors[dirSector]
      ensures old(NoneFree(d.fat)) ==> EndsInZero(old(d.fat), d.fat, d.chains[id]) && !WellFormed(d.fat, d.chains)
      ensures old(NoneFree(d.fat)) && d.geo.sectorsPerCluster < 2 * d.geo.sectorsPerFat ==> !d.Valid()
      ensures old(NoneFree(d.fat)) ==> FatsHold(d.geo, image, d.fat) && d.sectors == Zeroed(image, d.geo.BelowData(), d.geo.sectorsPerCluster)
    {
      hide Times, Quot, Rem, SlotsIn, WellFormed, FatsHold, DataImage, AddedOne, Zeroed, EndsInZero;
      OwnDirectory(d, id);
      image := d.sectors;
      var nextCluster := FindFreeCluster(d, dirCluster);
      if nextCluster == 0 {
        ghost var fat := d.fat;
        image := GoOnWithZero();
        FullVolumeExtension(d.geo, fat, d.fat, d.chains, id, image);
      } else {
        GoOnWith(nextCluster);
      }
      ok := true;
    }

    /** The rest of extend_dir_cluster_chain for a free cluster. */
    method GoOnWith(nextCluster: nat)
      requires Valid() && dirSector == -1 && 2 <= nextCluster < |d.fat| && d.fat[nextCluster] == 0
      modifies this, d`sectors, d`fat, d`clusters, d`chains, d`fatFaults, d`ioFaults
      ensures Valid() && dirSector != -1 && At() == |old(Slots())| - 1
      ensures Slots() == old(Slots()) + Zeros(16 * d.geo.sectorsPerCluster)
      ensures AddedOne(old(d.fat), old(d.chains), d.fat, d.chains, id)
      ensures |d.clusters| == |old(d.clusters)|
      ensures forall c :: 0 <= c < |d.clusters| && c !in d.chains[id] ==> d.clusters[c] == old(d.clusters)[c]
    {
      hide Times, Quot, Rem, SlotsIn, WellFormed, FatsHold, DataImage, AddedOne;
      OwnDirectory(d, id);
      ghost var ch := d.chains[id];
      ghost var cl := d.clusters;
      LinkCluster(nextCluster);
      WipeCluster(nextCluster);
      OwnDirectory(d, id);
      SlotsExtended(cl, d.clusters, ch, nextCluster, d.geo.sectorsPerCluster);
      dirCluster, index := nextCluster, |ch|;
      dirSector, dirSectorOffset, dirSectorInCluster := d.geo.SectorOf(nextCluster, 0), -32, 0;
      var sector := LoadSector(nextCluster, 0);
      dirSectorBuffer := sector;
    }

    /** Its FAT part: allocate_cluster, chain_cluster. */
    method LinkCluster(nextCluster: nat)
      requires Tree(d, id) && Placed() && dirSector == -1 && 2 <= nextCluster < |d.fat| && d.fat[nextCluster] == 0
      modifies d`sectors, d`fat, d`chains, d`fatFaults
      ensures Tree(d, id) && AddedOne(old(d.fat), old(d.chains), d.fat, d.chains, id)
      ensures |d.fat| == |old(d.fat)| && nextCluster !in old(d.chains[id]) && d.chains == old(d.chains)[id := old(d.chains[id]) + [nextCluster]]
    {
      hide Times, Quot, Rem, SlotsIn, FatsHold, DataImage, Disjoint, Covered;
      OwnDirectory(d, id);
      ghost var ch := d.chains[id];
      ghost var fat: Fat := d.fat;
      FreeIsUnowned(d.fat, d.chains, nextCluster);
      var err := d.AllocateCluster(nextCluster);
      err := d.ChainCluster(dirCluster, nextCluster);
      OneMore(fat, d.chains, id, nextCluster);
      d.chains := d.chains[id := ch + [nextCluster]];
      assert d.fat == fat[nextCluster := END_MARK][ch[|ch| - 1] := nextCluster];
    }

    /** The same calls when the search for a free cluster has returned 0. */
    method GoOnWithZero() returns (ghost image: seq<Sector>)
      requires Valid() && dirSector == -1
      modifies this, d`sectors, d`fat, d`fatFaults
      ensures dirSector == d.geo.BelowData() && dirCluster == 0 && dirSectorOffset == -32 && dirSectorInCluster == 0
      ensures 0 <= dirSector < |d.sectors| ==> dirSectorBuffer == d.sectors[dirSector]
      ensures EndsInZero(old(d.fat), d.fat, d.chains[id]) && FatsHold(d.geo, image, d.fat)
      ensures d.sectors == Zeroed(image, d.geo.BelowData(), d.geo.sectorsPerCluster)
    {
      hide Times, Quot, Rem, SlotsIn, FatsHold, DataImage, Disjoint, Covered, Zeroed;
      OwnDirectory(d, id);
      var err := d.AllocateCluster(0);
      err := d.ChainCluster(dirCluster, 0);
      image := d.sectors;
      WipeClusterZero();
      dirCluster, dirSectorOffset, dirSectorInCluster := 0, -32, 0;
      dirSector := d.geo.BelowData();
      if 0 <= dirSector < |d.sectors| {
        dirSectorBuffer := d.sectors[dirSector];
      }
    }
  }

  /** One free cluster has been linked behind owner's chain; nothing else in the FAT has changed. */
  ghost predicate AddedOne(fat: Fat, chains: map<int, seq<nat>>, fat': Fat, chains': map<int, seq<nat>>, owner: int) {
    && owner in chains && |chains[owner]| > 0 && |fat'| == |fat| && chains[owner][|chains[owner]| - 1] < |fat|
    && exists c: nat :: 2 <= c < |fat| && fat[c] == 0 && chains' == chains[owner := chains[owner] + [c]]
                   && fat' == fat[c := END_MARK][chains[owner][|chains[owner]| - 1] := c]
  }

  /** That is one step of a run of whole operations. */
  lemma AddedIsStep(fat: Fat, chains: map<int, seq<nat>>, fat': Fat, chains': map<int, seq<nat>>, owner: int)
    requires AddedOne(fat, chains, fat', chains', owner)
    ensures VR.Reaches(VR.Tables(fat, chains), VR.Tables(fat', chains'), {owner})
  {
    var ch := chains[owner];
    var c: nat :| 2 <= c < |fat| && fat[c] == 0 && chains' == chains[owner := ch + [c]] && fat' == fat[c := END_MARK][ch[|ch| - 1] := c];
    assert RunAt(fat, c, 1) && Run(c, 1) == [c] && LinkRun(fat, c, 1) == fat[c := END_MARK];
    VR.ReachesByStep(VR.Tables(fat, chains), VR.Extend(owner, c, 1), VR.Tables(fat', chains'), {owner});
  }

  /** Linking one free cluster behind a chain keeps the volume well formed. */
  lemma OneMore(fat: Fat, chains: map<int, seq<nat>>, owner: int, c: nat)
    requires WellFormed(fat, chains) && owner in chains && 2 <= c < |fat| && fat[c] == 0
    ensures |chains[owner]| > 0
    ensures var ch := chains[owner];
            ch[|ch| - 1] < |fat| && WellFormed(fat[c := END_MARK][ch[|ch| - 1] := c], chains[owner := ch + [c]])
  {
    assert RunAt(fat, c, 1);
    Extended(fat, chains, owner, c, 1);
    var ch := chains[owner];
    assert Run(c, 1) == [c];
    assert LinkRun(fat, c, 1) == fat[c := END_MARK];
  }

  // ----- a full volume

  function ZeroedSector(disk: seq<Sector>, from: int, n: nat, i: nat): Sector
    requires i < |disk|
  {
    if from <= i < from + n then ZeroSector() else disk[i]
  }

  /** The disk with n sectors from `from` zeroed, as far as it has them. */
  function Zeroed(disk: seq<Sector>, from: int, n: nat): (r: seq<Sector>)
    ensures |r| == |disk| && forall i :: 0 <= i < |r| ==> r[i] == if from <= i < from + n then ZeroSector() else disk[i]
  {
    seq<Sector>(|disk|, i requires 0 <= i < |disk| => ZeroedSector(disk, from, n, i))
  }

  lemma ZeroedNone(disk: seq<Sector>, from: int)
    ensures Zeroed(disk, from, 0) == disk
  {
  }

  lemma ZeroedOneMore(disk: seq<Sector>, from: int, k: nat)
    ensures Zeroed(disk, from, k + 1) ==
            if 0 <= from + k < |disk| then Zeroed(disk, from, k)[from + k := ZeroSector()] else Zeroed(disk, from, k)
  {
  }

  /** Entry 0 has become an end mark, and the chain ends in a link to cluster 0. */
  ghost predicate EndsInZero(fat: Fat, fat': Fat, ch: seq<nat>) {
    ch != [] && 2 <= ch[|ch| - 1] < |fat| && fat' == fat[0 := END_MARK][ch[|ch| - 1] := 0]
  }

  /**
   * Extending a directory on a full volume loses its chain: the volume is no longer
   * well formed.  And unless a cluster is at least as large as both FATs together,
   * zeroing cluster 0 leaves two FATs that differ, whatever entries they should hold.
   */
  lemma FullVolumeExtension(g: Geometry, fat: Fat, fat': Fat, chains: map<int, seq<nat>>, owner: int, image: seq<Sector>)
    requires WellFormed(fat, chains) && NoneFree(fat) && owner in chains && EndsInZero(fat, fat', chains[owner])
    requires FatsHold(g, image, fat')
    ensures !WellFormed(fat', chains)
    ensures g.sectorsPerCluster >= 2 * g.sectorsPerFat ==> FatsHold(g, Zeroed(image, g.BelowData(), g.sectorsPerCluster), fat')
    ensures g.sectorsPerCluster < 2 * g.sectorsPerFat ==>
              forall f: Fat :: !FatsHold(g, Zeroed(image, g.BelowData(), g.sectorsPerCluster), f)
  {
    var ch := chains[owner];
    assert IsChain(fat, ch);
    assert fat'[ch[|ch| - 1]] == 0;
    assert !IsChain(fat', ch);
    var disk := Zeroed(image, g.BelowData(), g.sectorsPerCluster);
    if g.sectorsPerCluster >= 2 * g.sectorsPerFat {
      FatFrameHere(g, image, disk, fat');
    } else {
      OneCopyWiped(g, fat', image, ch[|ch| - 1]);
    }
  }

  lemma FatFrameHere(g: Geometry, image: seq<Sector>, disk: seq<Sector>, fat: Fat)
    requires FatsHold(g, image, fat) && |disk| == |image| && forall i :: g.Fat1() <= i < g.FirstDataSector() ==> disk[i] == image[i]
    ensures FatsHold(g, disk, fat)
  {
    assert disk[g.Fat1()..g.Fat2()] == image[g.Fat1()..g.Fat2()];
    assert disk[g.Fat2()..g.FirstDataSector()] == image[g.Fat2()..g.FirstDataSector()];
  }

  /** The last zeroed sector belongs to one FAT, and the other FAT's copy of it is not zeroed. */
  lemma OneCopyWiped(g: Geometry, fat: Fat, image: seq<Sector>, last: nat)
    requires FatsHold(g, image, fat) && g.sectorsPerCluster < 2 * g.sectorsPerFat
    requires forall c :: 2 <= c < |fat| && c != last ==> fat[c] != 0
    ensures forall f: Fat :: !FatsHold(g, Zeroed(image, g.BelowData(), g.sectorsPerCluster), f)
  {
    var disk := Zeroed(image, g.BelowData(), g.sectorsPerCluster);
    var spc, spf := g.sectorsPerCluster, g.sectorsPerFat;
    var wiped := g.FirstDataSector() - spc - 1;
    var k := if spc < spf then wiped - g.Fat2() else wiped - g.Fat1();
    assert 0 <= k < spf;
    UsedSectorIsNotZero(g, fat, image, k, last);
    assert disk[g.Fat1()..g.Fat2()][k] != disk[g.Fat2()..g.FirstDataSector()][k];
  }

  lemma UsedSectorIsNotZero(g: Geometry, fat: Fat, image: seq<Sector>, k: nat, last: nat)
    requires FatsHold(g, image, fat) && k < g.sectorsPerFat && forall c :: 2 <= c < |fat| && c != last ==> fat[c] != 0
    ensures image[g.Fat1() + k] == image[g.Fat2() + k] != ZeroSector()
  {
    hide Le32;
    var table := image[g.Fat1()..g.Fat2()];
    var c := if 128 * k + 2 != last then 128 * k + 2 else 128 * k + 3;
    assert c / 128 == k && 2 <= c < |fat|;
    assert table[k] == image[g.Fat1() + k];
    assert table[k] == image[g.Fat2()..g.FirstDataSector()][k] == image[g.Fat2() + k];
    assert EntryIn(table, c) == fat[c];
    ZeroEntry32(EntryOffset(c));
  }

  lemma ZeroEntry32(o: nat)
    requires o + 4 <= 512
    ensures Le32(ZeroSector(), o) == 0
  {
  }

  /** The volume is well formed and owner's chain is a directory of it; nothing fails. */
  ghost predicate Tree(d: Disk, owner: int)
    reads d`sectors, d`fat, d`clusters, d`chains, d`ioFaults, d`fatFaults
  {
    d.Valid() && d.ioFaults == 0 && d.fatFaults == 0 && WellFormed(d.fat, d.chains) && |d.fat| <= END_OF_DIRECTORY && owner in d.chains
  }

  lemma OwnDirectory(d: Disk, owner: int)
    requires Tree(d, owner)
    ensures Holds(d.clusters, d.chains[owner], d.geo.sectorsPerCluster)
    ensures IsChain(d.fat, d.chains[owner]) && Distinct(d.chains[owner]) && |d.clusters| == |d.fat|
    ensures forall c :: 0 <= c < |d.fat| ==> d.fat[c] < 0x1000_0000
  {
    ChainIsDistinct(d.fat, d.chains[owner]);
  }

  /** What get_next_cluster finds behind cluster i of a chain. */
  lemma NextInChain(fat: Fat, ch: seq<nat>, i: nat)
    requires IsChain(fat, ch) && i < |ch| && |fat| <= END_OF_DIRECTORY && forall c :: 0 <= c < |fat| ==> fat[c] < 0x1000_0000
    ensures var next := fat[ch[i]] % 0x1000_0000;
            if i + 1 < |ch| then next == ch[i + 1] && 2 <= next < |fat| else next >= END_OF_DIRECTORY
  {
    if i + 1 < |ch| {
      assert fat[ch[i]] == ch[i + 1];
    }
  }

  /** Only the last slot of the last sector of the last cluster is the last slot. */
  lemma LastPlace(j: nat, n: nat, s: nat, o: int, m: nat)
    requires j < n && s < m && -1 <= o < 16
    ensures var at := 16 * (Times(j, m) + s) + o;
            at + 1 <= 16 * Times(n, m) && (at + 1 == 16 * Times(n, m) <==> j == n - 1 && s == m - 1 && o == 15)
  {
    TimesNext(j, m);
    TimesMono(j + 1, n, m);
  }
}
