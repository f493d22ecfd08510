/**
 * The flat disk that holds one FAT32 partition: where its two FATs and its data
 * clusters lie, and the calls of the driver that read and change FAT entries.
 */
module Volume {
  import opened Bytes
  import opened Chains
  import opened Arith

  const ENTRIES_PER_SECTOR: nat := 128

  /** What chained_cluster returns for a cluster number past the FAT: (unsigned) -1. */
  const NO_CLUSTER: nat := 0xffff_ffff

  /**
   * The fields of the boot sector the driver keeps.  The root directory is at
   * cluster 2 and every FAT entry stands for a real cluster.
   */
  datatype Geometry = Geometry(partitionStart: nat, reservedSectors: nat, sectorsPerFat: nat, sectorsPerCluster: nat) {

    predicate Valid() {
      && 1 <= sectorsPerFat && ENTRIES_PER_SECTOR * sectorsPerFat <= END_MARK
      && 1 <= sectorsPerCluster < 256
      && Total() < 0x1_0000_0000
    }

    function Entries(): nat {
      ENTRIES_PER_SECTOR * sectorsPerFat
    }

    function Fat1(): nat {
      partitionStart + reservedSectors
    }

    function Fat2(): nat {
      Fat1() + sectorsPerFat
    }

    function FirstDataSector(): nat {
      partitionStart + reservedSectors + 2 * sectorsPerFat
    }

    /** Where cluster 0 would begin: two clusters before the data area. */
    function BelowData(): int {
      FirstDataSector() - 2 * sectorsPerCluster
    }

    /** Sector s of cluster c: first_data_sector + (c - 2) * sectors_per_cluster + s. */
    function SectorOf(c: nat, s: nat): nat
      requires 2 <= c
    {
      FirstDataSector() + Times(c - 2, sectorsPerCluster) + s
    }

    function Total(): nat
      requires 1 <= sectorsPerFat
    {
      SectorOf(Entries(), 0)
    }

    function ClusterSize(): nat {
      sectorsPerCluster * SECTOR_SIZE
    }
  }

  lemma SectorInRange(g: Geometry, c: nat, s: nat)
    requires g.Valid() && 2 <= c < g.Entries() && s < g.sectorsPerCluster
    ensures g.FirstDataSector() <= g.SectorOf(c, s) < g.Total()
  {
    TimesMono(c - 2, g.Entries() - 2, g.sectorsPerCluster);
  }

  /** Different places are different sectors. */
  lemma SectorIsUnique(g: Geometry, c: nat, s: nat, c': nat, s': nat)
    requires 2 <= c && 2 <= c' && s < g.sectorsPerCluster && s' < g.sectorsPerCluster
    requires g.SectorOf(c, s) == g.SectorOf(c', s')
    ensures c == c' && s == s'
  {
    if c < c' {
      TimesMono(c - 2, c' - 2, g.sectorsPerCluster);
    } else if c' < c {
      TimesMono(c' - 2, c - 2, g.sectorsPerCluster);
    }
  }

  /** The clusters follow one another from the end of the FATs on; cluster 0 would begin two clusters before. */
  lemma ClustersAdjoin(g: Geometry, c: nat, s: nat)
    requires g.Valid() && 2 <= c
    ensures g.SectorOf(2, 0) == g.partitionStart + g.reservedSectors + 2 * g.sectorsPerFat
    ensures g.SectorOf(c + 1, 0) == g.SectorOf(c, 0) + g.sectorsPerCluster
    ensures g.SectorOf(c, s) == g.SectorOf(c, 0) + s
    ensures g.BelowData() + g.sectorsPerCluster + g.sectorsPerCluster == g.SectorOf(2, 0)
  {
    TimesNext(c - 2, g.sectorsPerCluster);
  }

  /** Sector n of the disk is sector s of data cluster c. */
  predicate IsPlace(g: Geometry, n: nat, c: nat, s: nat) {
    2 <= c < g.Entries() && s < g.sectorsPerCluster && g.SectorOf(c, s) == n
  }

  /**
   * Every sector behind the reserved ones is a sector of the first FAT, or of the
   * second, or of exactly one data cluster, and nothing else is a sector of a cluster.
   */
  lemma ClustersTile(g: Geometry, n: nat)
    requires g.Valid()
    ensures var data := g.partitionStart + g.reservedSectors + 2 * g.sectorsPerFat;
            (exists c: nat, s: nat :: IsPlace(g, n, c, s)) <==> data <= n < data + (g.Entries() - 2) * g.sectorsPerCluster
    ensures g.Total() == g.partitionStart + g.reservedSectors + 2 * g.sectorsPerFat + (g.Entries() - 2) * g.sectorsPerCluster
    ensures forall c: nat, s: nat, c': nat, s': nat :: IsPlace(g, n, c, s) && IsPlace(g, n, c', s') ==> c == c' && s == s'
    ensures g.Fat1() == g.partitionStart + g.reservedSectors && g.Fat2() == g.Fat1() + g.sectorsPerFat
  {
    var data, spc := g.FirstDataSector(), g.sectorsPerCluster;
    TimesIsProduct(g.Entries() - 2, spc);
    if data <= n < g.Total() {
      QuotRem(n - data, spc);
      QuotBound(n - data, g.Entries() - 2, spc);
      assert IsPlace(g, n, Quot(n - data, spc) + 2, Rem(n - data, spc));
    }
    forall c: nat, s: nat | IsPlace(g, n, c, s) ensures data <= n < g.Total() {
      SectorInRange(g, c, s);
    }
    forall c: nat, s: nat, c': nat, s': nat | IsPlace(g, n, c, s) && IsPlace(g, n, c', s') ensures c == c' && s == s' {
      SectorIsUnique(g, c, s, c', s');
    }
  }

  /** Where entry c lies in its FAT sector. */
  function EntryOffset(c: nat): (o: nat)
    ensures o + 4 <= 512 && o == c * 4 % 512
  {
    c % 128 * 4
  }

  lemma EntryOffsetsApart(c: nat, e: nat)
    requires c / 128 == e / 128 && c != e
    ensures EntryOffset(c) + 4 <= EntryOffset(e) || EntryOffset(e) + 4 <= EntryOffset(c)
  {
  }

  // ----- the disk seen as a FAT and as clusters

  /** fat lists the entries stored in the sectors of one FAT. */
  ghost predicate FatImage(table: seq<Sector>, fat: Fat) {
    && |fat| == ENTRIES_PER_SECTOR * |table|
    && forall c {:trigger EntryIn(table, c)} :: 0 <= c < |fat| ==> EntryIn(table, c) == fat[c]
  }

  function EntryIn(table: seq<Sector>, c: nat): nat
    requires c < ENTRIES_PER_SECTOR * |table|
  {
    Le32(table[c / 128], EntryOffset(c))
  }

  /** Both FATs hold the entries of fat. */
  ghost predicate FatsHold(g: Geometry, disk: seq<Sector>, fat: Fat) {
    && g.Valid() && g.FirstDataSector() <= |disk|
    && FatImage(disk[g.Fat1()..g.Fat2()], fat)
    && disk[g.Fat1()..g.Fat2()] == disk[g.Fat2()..g.FirstDataSector()]
  }

  /** clusters[c][s] is sector s of data cluster c. */
  ghost predicate DataImage(g: Geometry, disk: seq<Sector>, clusters: seq<seq<Sector>>) {
    && g.Valid() && |disk| == g.Total()
    && |clusters| == g.Entries()
    && (forall c :: 0 <= c < |clusters| ==> |clusters[c]| == g.sectorsPerCluster)
    && forall c, s :: 2 <= c < |clusters| && 0 <= s < g.sectorsPerCluster ==> DataSector(g, disk, clusters, c, s)
  }

  ghost predicate DataSector(g: Geometry, disk: seq<Sector>, clusters: seq<seq<Sector>>, c: nat, s: nat) {
    && 2 <= c < |clusters| && s < |clusters[c]|
    && g.SectorOf(c, s) < |disk|
    && disk[g.SectorOf(c, s)] == clusters[c][s]
  }

  /** Writing one entry into a FAT changes that entry and no other. */
  lemma EntryWritten(table: seq<Sector>, fat: Fat, c: nat, v: nat, sector: Sector)
    requires FatImage(table, fat) && c < |fat| && v < 0x1_0000_0000
    requires sector == PutLe32(table[c / 128], EntryOffset(c), v)
    ensures FatImage(table[c / 128 := sector], fat[c := v])
  {
    var was := table[c / 128];
    var fat' := fat[c := v];
    PutThenGet(was, EntryOffset(c), v);
    forall e | 0 <= e < |fat'| ensures EntryIn(table[c / 128 := sector], e) == fat'[e] {
      if e != c {
        assert EntryIn(table, e) == fat[e];
        if e / 128 == c / 128 {
          EntryOffsetsApart(c, e);
          PutKeepsOther(was, EntryOffset(c), v, EntryOffset(e));
        }
      }
    }
  }

  /** The same for the disk: the changed sector goes into both FATs. */
  lemma EntryWrittenTwice(g: Geometry, disk: seq<Sector>, fat: Fat, c: nat, v: nat, sector: Sector)
    requires FatsHold(g, disk, fat) && c < |fat| && v < 0x1_0000_0000
    requires sector == PutLe32(disk[g.Fat1() + c / 128], EntryOffset(c), v)
    ensures FatsHold(g, disk[g.Fat1() + c / 128 := sector][g.Fat2() + c / 128 := sector], fat[c := v])
  {
    var k := c / 128;
    var table := disk[g.Fat1()..g.Fat2()];
    var disk' := disk[g.Fat1() + k := sector][g.Fat2() + k := sector];
    assert table[k] == disk[g.Fat1() + k];
    EntryWritten(table, fat, c, v, sector);
    assert disk'[g.Fat1()..g.Fat2()] == table[k := sector];
    assert disk'[g.Fat2()..g.FirstDataSector()] == disk[g.Fat2()..g.FirstDataSector()][k := sector];
  }

  /** The data clusters do not depend on the sectors before them. */
  lemma DataFrame(g: Geometry, disk: seq<Sector>, disk': seq<Sector>, clusters: seq<seq<Sector>>)
    requires DataImage(g, disk, clusters) && |disk'| == |disk|
    requires forall n :: g.FirstDataSector() <= n < |disk| ==> disk'[n] == disk[n]
    ensures DataImage(g, disk', clusters)
  {
    forall c, s | 2 <= c < |clusters| && 0 <= s < g.sectorsPerCluster ensures DataSector(g, disk', clusters, c, s) {
      SectorInRange(g, c, s);
      assert DataSector(g, disk, clusters, c, s);
    }
  }

  /** Reading past the end of FAT1 reads FAT2. */
  lemma EntryRead(g: Geometry, disk: seq<Sector>, fat: Fat, c: nat)
    requires FatsHold(g, disk, fat) && c < 2 * |fat|
    ensures g.Fat1() + c / 128 < |disk|
    ensures Le32(disk[g.Fat1() + c / 128], EntryOffset(c)) == fat[if c < |fat| then c else c - |fat|]
  {
    var table := disk[g.Fat1()..g.Fat2()];
    var e := if c < |fat| then c else c - |fat|;
    assert e / 128 < |table| && c / 128 == e / 128 + (if c < |fat| then 0 else g.sectorsPerFat);
    assert fat[e] == EntryIn(table, e);
    assert table[e / 128] == disk[g.Fat1() + e / 128];
    assert table[e / 128] == disk[g.Fat2()..g.FirstDataSector()][e / 128] == disk[g.Fat2() + e / 128];
    assert EntryOffset(c) == EntryOffset(e);
  }

  /** The FATs do not depend on the data clusters. */
  lemma FatFrame(g: Geometry, disk: seq<Sector>, disk': seq<Sector>, fat: Fat)
    requires FatsHold(g, disk, fat) && |disk'| == |disk|
    requires forall n :: 0 <= n < g.FirstDataSector() ==> disk'[n] == disk[n]
    ensures FatsHold(g, disk', fat)
  {
    assert disk'[g.Fat1()..g.Fat2()] == disk[g.Fat1()..g.Fat2()];
    assert disk'[g.Fat2()..g.FirstDataSector()] == disk[g.Fat2()..g.FirstDataSector()];
  }

  /** set_fat_cluster_ptr as a change of the whole disk. */
  lemma EntryUpdate(g: Geometry, disk: seq<Sector>, fat: Fat, clusters: seq<seq<Sector>>, c: nat, v: nat, sector: Sector)
    requires FatsHold(g, disk, fat) && DataImage(g, disk, clusters) && c < |fat| && v < 0x1_0000_0000
    requires sector == PutLe32(disk[g.Fat1() + c / 128], EntryOffset(c), v)
    ensures g.Fat2() + c / 128 < g.FirstDataSector() <= |disk|
    ensures var disk' := disk[g.Fat1() + c / 128 := sector][g.Fat2() + c / 128 := sector];
            FatsHold(g, disk', fat[c := v]) && DataImage(g, disk', clusters)
  {
    var disk' := disk[g.Fat1() + c / 128 := sector][g.Fat2() + c / 128 := sector];
    EntryWrittenTwice(g, disk, fat, c, v, sector);
    DataFrame(g, disk, disk', clusters);
  }

  /** Writing one data sector changes that sector of its cluster and nothing else. */
  lemma SectorWritten(g: Geometry, disk: seq<Sector>, clusters: seq<seq<Sector>>, c: nat, s: nat, sector: Sector)
    requires DataImage(g, disk, clusters) && 2 <= c < |clusters| && s < g.sectorsPerCluster
    ensures g.FirstDataSector() <= g.SectorOf(c, s) < |disk|
    ensures DataImage(g, disk[g.SectorOf(c, s) := sector], Stored(clusters, c, s, sector))
  {
    SectorInRange(g, c, s);
    var n := g.SectorOf(c, s);
    var disk' := disk[n := sector];
    var clusters' := Stored(clusters, c, s, sector);
    forall c', s' | 2 <= c' < |clusters'| && 0 <= s' < g.sectorsPerCluster ensures DataSector(g, disk', clusters', c', s') {
      SectorInRange(g, c', s');
      assert DataSector(g, disk, clusters, c', s');
      if g.SectorOf(c', s') == n {
        SectorIsUnique(g, c, s, c', s');
      }
    }
  }

  lemma LowNibble(v: nat)
    ensures v % 0x1000_0000 == v % 0x100_0000 + 0x100_0000 * (v / 0x100_0000 % 0x10)
  {
    var a := v / 0x100_0000;
    assert v / 0x1000_0000 == a / 0x10;
  }

  function Stored(clusters: seq<seq<Sector>>, c: nat, s: nat, sector: Sector): (r: seq<seq<Sector>>)
    requires c < |clusters| && s < |clusters[c]|
    ensures |r| == |clusters| && |r[c]| == |clusters[c]|
  {
    var row: seq<Sector> := clusters[c][s := sector];
    clusters[c := row]
  }

  /**
   * The disk as the driver reaches it through read_sector and write_sector.
   * fatFaults and ioFaults say how many more FAT updates and how many more
   * accesses to other sectors may still fail; a failing call changes nothing.
   */
  class Disk {
    const geo: Geometry
    var sectors: seq<Sector>
    var fatFaults: nat
    var ioFaults: nat

    ghost var fat: Fat
    ghost var clusters: seq<seq<Sector>>
    ghost var chains: map<int, seq<nat>>

    ghost predicate Valid()
      reads this`sectors, this`fat, this`clusters
    {
      FatsHold(geo, sectors, fat) && DataImage(geo, sectors, clusters)
    }

    /** read_sector on a data sector. */
    method ReadSector(n: int, ghost c: nat, ghost s: nat) returns (err: bool, sector: Sector)
      requires Valid() && 2 <= c < |fat| && s < geo.sectorsPerCluster && n == geo.SectorOf(c, s)
      modifies this`ioFaults
      ensures Valid()
      ensures !err ==> sector == clusters[c][s] && ioFaults == old(ioFaults)
      ensures err ==> ioFaults == old(ioFaults) - 1
    {
      err, sector := false, ZeroSector();
      if ioFaults > 0 {
        err := *;
      }
      if err {
        ioFaults := ioFaults - 1;
      } else {
        SectorInRange(geo, c, s);
        assert DataSector(geo, sectors, clusters, c, s);
        sector := sectors[n];
      }
    }

    /** write_sector on a data sector. */
    method WriteSector(n: int, ghost c: nat, ghost s: nat, sector: Sector) returns (err: bool)
      requires Valid() && 2 <= c < |fat| && s < geo.sectorsPerCluster && n == geo.SectorOf(c, s)
      modifies this`sectors, this`clusters, this`ioFaults
      ensures Valid()
      ensures !err ==> clusters == Stored(old(clusters), c, s, sector) && ioFaults == old(ioFaults)
      ensures err ==> clusters == old(clusters) && sectors == old(sectors) && ioFaults == old(ioFaults) - 1
    {
      err := false;
      if ioFaults > 0 {
        err := *;
      }
      if err {
        ioFaults := ioFaults - 1;
      } else {
        SectorWritten(geo, sectors, clusters, c, s, sector);
        FatFrame(geo, sectors, sectors[n := sector], fat);
        sectors := sectors[n := sector];
        clusters := Stored(clusters, c, s, sector);
      }
    }

    /** read_sector with a number that need not be a data sector's. */
    method ReadAny(n: int) returns (err: bool, sector: Sector)
      requires ioFaults == 0
      ensures err <==> !(0 <= n < |sectors|)
      ensures !err ==> sector == sectors[n]
    {
      err, sector := n < 0 || n >= |sectors|, ZeroSector();
      if !err {
        sector := sectors[n];
      }
    }

    /**
     * write_sector with a number that need not be a data sector's; a sector the
     * disk does not have cannot be written.
     */
    method WriteAny(n: int, sector: Sector) returns (err: bool)
      requires ioFaults == 0
      modifies this`sectors
      ensures err <==> !(0 <= n < |old(sectors)|)
      ensures sectors == if err then old(sectors) else old(sectors)[n := sector]
    {
      err := n < 0 || n >= |sectors|;
      if !err {
        sectors := sectors[n := sector];
      }
    }

    /** set_fat_cluster_ptr: one entry of both FATs. */
    method SetFatClusterPtr(cluster: nat, value: nat) returns (err: bool)
      requires Valid() && value < 0x1_0000_0000
      modifies this`sectors, this`fat, this`fatFaults
      ensures Valid()
      ensures !err ==> cluster < |fat| && fat == old(fat)[cluster := value] && fatFaults == old(fatFaults)
      ensures err ==> fat == old(fat) && sectors == old(sectors)
      ensures err ==> if cluster < |fat| then fatFaults == old(fatFaults) - 1 else fatFaults == old(fatFaults)
    {
      var fatSectorNum := cluster / 128;
      var fatSectorOffset := EntryOffset(cluster);
      if fatSectorNum >= geo.sectorsPerFat {
        return true;
      }
      err := false;
      if fatFaults > 0 {
        err := *;
      }
      if err {
        fatFaults := fatFaults - 1;
        return;
      }
      var fatSector: Sector := PutLe32(sectors[geo.Fat1() + fatSectorNum], fatSectorOffset, value);
      EntryUpdate(geo, sectors, fat, clusters, cluster, value, fatSector);
      // write back to FAT1, then to FAT2
      var image := sectors[geo.Fat1() + fatSectorNum := fatSector];
      image := image[geo.Fat2() + fatSectorNum := fatSector];
      sectors, fat := image, fat[cluster := value];
    }

    /** allocate_cluster */
    method AllocateCluster(cluster: nat) returns (err: bool)
      requires Valid()
      modifies this`sectors, this`fat, this`fatFaults
      ensures Valid()
      ensures !err ==> cluster < |fat| && fat == old(fat)[cluster := END_MARK] && fatFaults == old(fatFaults)
      ensures err ==> fat == old(fat)
      ensures err ==> if cluster < |fat| then fatFaults == old(fatFaults) - 1 else fatFaults == old(fatFaults)
    {
      err := SetFatClusterPtr(cluster, 0x0fff_fff8);
    }

    /** deallocate_cluster */
    method DeallocateCluster(cluster: nat) returns (err: bool)
      requires Valid()
      modifies this`sectors, this`fat, this`fatFaults
      ensures Valid()
      ensures !err ==> cluster < |fat| && fat == old(fat)[cluster := 0] && fatFaults == old(fatFaults)
      ensures err ==> fat == old(fat)
      ensures err ==> if cluster < |fat| then fatFaults == old(fatFaults) - 1 else fatFaults == old(fatFaults)
    {
      err := SetFatClusterPtr(cluster, 0);
    }

    /** chain_cluster: like set_fat_cluster_ptr, but the top nibble of the entry is cleared. */
    method ChainCluster(cluster: nat, nextCluster: nat) returns (err: bool)
      requires Valid() && nextCluster < 0x1_0000_0000
      modifies this`sectors, this`fat, this`fatFaults
      ensures Valid()
      ensures !err ==> cluster < |fat| && fat == old(fat)[cluster := nextCluster % 0x1000_0000] && fatFaults == old(fatFaults)
      ensures err ==> fat == old(fat)
      ensures err ==> if cluster < |fat| then fatFaults == old(fatFaults) - 1 else fatFaults == old(fatFaults)
    {
      var top := nextCluster / 0x100_0000 % 0x10;
      assert nextCluster % 0x1000_0000 == nextCluster % 0x100_0000 + 0x100_0000 * top by {
        LowNibble(nextCluster);
      }
      err := SetFatClusterPtr(cluster, nextCluster % 0x100_0000 + 0x100_0000 * top);
    }

    /** chained_cluster: the unmasked entry. */
    method ChainedCluster(cluster: nat) returns (next: nat)
      requires Valid()
      ensures next == if cluster < |fat| then fat[cluster] else NO_CLUSTER
    {
      var fatSectorNum := cluster / 128;
      if fatSectorNum >= geo.sectorsPerFat {
        return NO_CLUSTER;
      }
      EntryRead(geo, sectors, fat, cluster);
      next := Le32(sectors[geo.Fat1() + fatSectorNum], cluster * 4 % 512);
    }

    /** get_next_cluster: the entry without its top nibble. */
    method GetNextCluster(cluster: nat) returns (next: nat)
      requires Valid() && cluster < |fat|
      ensures next == fat[cluster] % 0x1000_0000
    {
      EntryRead(geo, sectors, fat, cluster);
      next := Le32(sectors[geo.Fat1() + cluster / 128], cluster * 4 % 512);
      next := next % 0x1000_0000;
    }

    /**
     * is_free_cluster.  The sector number is not checked: one past the last
     * cluster it reads entry 0 of the second FAT.
     */
    method IsFreeCluster(cluster: nat) returns (free: bool)
      requires Valid() && cluster < 2 * |fat|
      ensures free <==> fat[if cluster < |fat| then cluster else cluster - |fat|] == 0
    {
      var i := cluster / 128;
      var o := cluster % 128 * 4;
      var fatSector := sectors[geo.Fat1() + i];
      EntryRead(geo, sectors, fat, cluster);
      free := fatSector[o] == 0 && fatSector[o + 1] == 0 && fatSector[o + 2] == 0 && fatSector[o + 3] == 0;
    }
  }
}
