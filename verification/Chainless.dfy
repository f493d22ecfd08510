/**
 * The direct write to a file that has no chain: a file truncated to zero, or an empty
 * one opened for writing.  The driver takes its first cluster, 0, for a cluster and
 * writes to the sectors where cluster 0 would lie, below the data area.
 */
module Chainless {
  import opened Bytes
  import opened Chains
  import opened Volume
  import opened Allocator
  import opened Contents
  import opened Arith
  import opened DirFields
  import opened Splicing
  import opened FileLayer
  import opened Sessions

  /** The write is over; or its first sector is not on the disk; or cluster 0 is used up and the driver goes on behind entry 0. */
  datatype ChainlessEnd = Finished | Refused | Beyond

  /** disk' is disk with data at byte position p. */
  ghost predicate BytesPut(disk: seq<Sector>, disk': seq<Sector>, p: int, data: seq<byte>) {
    && |disk'| == |disk|
    && forall n, b {:trigger disk'[n][b]} :: 0 <= n < |disk| && 0 <= b < 512 ==>
         disk'[n][b] == if p <= 512 * n + b < p + |data| then data[512 * n + b - p] else disk[n][b]
  }

  lemma NothingPut(disk: seq<Sector>, p: int)
    ensures BytesPut(disk, disk, p, [])
  {
  }

  /** The next piece, within sector n. */
  lemma PutMore(disk: seq<Sector>, disk': seq<Sector>, p: int, data: seq<byte>, n: nat, o: nat, piece: seq<byte>)
    requires BytesPut(disk, disk', p, data) && n < |disk| && o + |piece| <= 512 && p + |data| == 512 * n + o
    ensures BytesPut(disk, disk'[n := Patched(disk'[n], o, piece)], p, data + piece)
  {
    var after := disk'[n := Patched(disk'[n], o, piece)];
    forall m, b | 0 <= m < |disk| && 0 <= b < 512
      ensures after[m][b] == if p <= 512 * m + b < p + |data + piece| then (data + piece)[512 * m + b - p] else disk[m][b]
    {
      assert disk'[m][b] == if p <= 512 * m + b < p + |data| then data[512 * m + b - p] else disk[m][b];
    }
  }

  /** What the write puts into the FATs is what is there already. */
  ghost predicate FatBytesKept(g: Geometry, disk: seq<Sector>, p: int, data: seq<byte>) {
    forall n, b {:trigger disk[n][b]} :: g.Fat1() <= n < |disk| && 0 <= b < 512 && p <= 512 * n + b < p + |data| ==>
      data[512 * n + b - p] == disk[n][b]
  }

  /**
   * After bytes have been put where cluster 0 would lie, the two FATs hold the same
   * entries exactly when no byte of a FAT has changed.
   */
  lemma FatsAgreeExactly(g: Geometry, disk: seq<Sector>, disk': seq<Sector>, fat: Fat, p: int, data: seq<byte>)
    requires FatsHold(g, disk, fat) && BytesPut(disk, disk', p, data)
    requires data != [] ==> 512 * g.BelowData() <= p && p + |data| <= 512 * (g.FirstDataSector() - g.sectorsPerCluster)
    ensures FatBytesKept(g, disk, p, data) ==> FatsHold(g, disk', fat)
    ensures !FatBytesKept(g, disk, p, data) ==> forall f: Fat :: !FatsHold(g, disk', f)
  {
    hide FatsHold, BytesPut, FatBytesKept;
    if FatBytesKept(g, disk, p, data) {
      FatsKept(g, disk, disk', fat, p, data);
    } else {
      var n, b := ChangedByte(g, disk, p, data);
      OneFatChanged(g, disk, disk', fat, p, data, n, b);
    }
  }

  lemma FatsKept(g: Geometry, disk: seq<Sector>, disk': seq<Sector>, fat: Fat, p: int, data: seq<byte>)
    requires FatsHold(g, disk, fat) && BytesPut(disk, disk', p, data) && FatBytesKept(g, disk, p, data)
    ensures FatsHold(g, disk', fat)
  {
    forall n | g.Fat1() <= n < g.FirstDataSector() ensures disk'[n] == disk[n] {
      forall b | 0 <= b < 512 ensures disk'[n][b] == disk[n][b] {
      }
    }
    assert disk'[g.Fat1()..g.Fat2()] == disk[g.Fat1()..g.Fat2()];
    assert disk'[g.Fat2()..g.FirstDataSector()] == disk[g.Fat2()..g.FirstDataSector()];
  }

  lemma ChangedByte(g: Geometry, disk: seq<Sector>, p: int, data: seq<byte>) returns (n: nat, b: nat)
    requires !FatBytesKept(g, disk, p, data)
    ensures data != [] && g.Fat1() <= n < |disk| && b < 512 && p <= 512 * n + b < p + |data| && data[512 * n + b - p] != disk[n][b]
  {
    n, b :| g.Fat1() <= n < |disk| && 0 <= b < 512 && p <= 512 * n + b < p + |data| && data[512 * n + b - p] != disk[n][b];
  }

  lemma OneFatChanged(g: Geometry, disk: seq<Sector>, disk': seq<Sector>, fat: Fat, p: int, data: seq<byte>, n: nat, b: nat)
    requires FatsHold(g, disk, fat) && BytesPut(disk, disk', p, data)
    requires 512 * g.BelowData() <= p && p + |data| <= 512 * (g.FirstDataSector() - g.sectorsPerCluster)
    requires g.Fat1() <= n < |disk| && b < 512 && p <= 512 * n + b < p + |data| && data[512 * n + b - p] != disk[n][b]
    ensures forall f: Fat :: !FatsHold(g, disk', f)
  {
    var twin := if n < g.Fat2() then n + g.sectorsPerFat else n - g.sectorsPerFat;
    assert g.BelowData() <= n < g.FirstDataSector() - g.sectorsPerCluster;
    TwinNotWritten(g, disk, disk', p, data, n, twin);
    var k := if n < g.Fat2() then n - g.Fat1() else n - g.Fat2();
    assert disk[g.Fat1()..g.Fat2()][k] == disk[g.Fat2()..g.FirstDataSector()][k];
    assert disk'[n][b] != disk[n][b];
    assert disk'[g.Fat1()..g.Fat2()][k] != disk'[g.Fat2()..g.FirstDataSector()][k];
  }

  /** The sector of the other FAT lies outside the sectors of cluster 0. */
  lemma TwinNotWritten(g: Geometry, disk: seq<Sector>, disk': seq<Sector>, p: int, data: seq<byte>, n: nat, twin: int)
    requires BytesPut(disk, disk', p, data) && g.Valid() && g.FirstDataSector() <= |disk|
    requires 512 * g.BelowData() <= p && p + |data| <= 512 * (g.FirstDataSector() - g.sectorsPerCluster)
    requires g.BelowData() <= n < g.FirstDataSector() - g.sectorsPerCluster && g.Fat1() <= n
    requires twin == if n < g.Fat2() then n + g.sectorsPerFat else n - g.sectorsPerFat
    ensures g.Fat1() <= twin < g.FirstDataSector() && disk'[twin] == disk[twin]
  {
    assert twin < g.BelowData() || twin >= g.FirstDataSector() - g.sectorsPerCluster;
    forall b | 0 <= b < 512 ensures disk'[twin][b] == disk[twin][b] {
    }
  }

  /** The data clusters are not below the data area. */
  lemma DataKept(g: Geometry, disk: seq<Sector>, disk': seq<Sector>, cl: Clusters, p: int, data: seq<byte>)
    requires DataImage(g, disk, cl) && BytesPut(disk, disk', p, data) && (data != [] ==> p + |data| <= 512 * g.FirstDataSector())
    ensures DataImage(g, disk', cl)
  {
    forall n | g.FirstDataSector() <= n < |disk| ensures disk'[n] == disk[n] {
      forall b | 0 <= b < 512 ensures disk'[n][b] == disk[n][b] {
      }
    }
    DataFrame(g, disk, disk', cl);
  }

  /** One turn of the write loop: a full sector goes out directly, a partial one by read and write. */
  method PutPiece(d: Disk, n: int, o: nat, piece: seq<byte>) returns (err: bool)
    requires d.ioFaults == 0 && o + |piece| <= 512
    modifies d`sectors
    ensures err <==> !(0 <= n < |old(d.sectors)|)
    ensures d.sectors == if err then old(d.sectors) else old(d.sectors)[n := Patched(old(d.sectors)[n], o, piece)]
  {
    var sector := ZeroSector();
    if |piece| < 512 || o != 0 {
      err, sector := d.ReadAny(n);
      if err {
        return;
      }
    }
    ghost var was := d.sectors;
    err := d.WriteAny(n, Patched(sector, o, piece));
    assert !err ==> Patched(sector, o, piece) == Patched(was[n], o, piece);
  }

  lemma DiskSize(d: Disk)
    requires d.Valid()
    ensures d.geo.FirstDataSector() <= |d.sectors| && d.geo.sectorsPerCluster > 0
    ensures d.geo.BelowData() + d.geo.sectorsPerCluster <= |d.sectors|
  {
  }

  /** The write loop as far as the sectors of cluster 0 go. */
  method WriteZero(d: Disk, buf: seq<byte>, offset: nat) returns (end: ChainlessEnd, total: nat, sec: nat)
    requires d.Valid() && d.ioFaults == 0 && d.geo.sectorsPerCluster > 0 && buf != []
    modifies d`sectors
    ensures total <= |buf| && BytesPut(old(d.sectors), d.sectors, 512 * d.geo.BelowData() + offset, buf[..total])
    ensures |d.sectors| == |old(d.sectors)|
    ensures end.Refused? <==> offset < d.geo.ClusterSize() && d.geo.BelowData() + offset / 512 < 0
    ensures end.Finished? <==> offset + |buf| <= d.geo.ClusterSize() && d.geo.BelowData() + offset / 512 >= 0
    ensures total == if end.Finished? then |buf| else if end.Beyond? && offset < d.geo.ClusterSize() then d.geo.ClusterSize() - offset else 0
    ensures end.Finished? ==> sec == CeilSectors(offset + |buf|)
  {
    hide BytesPut, FatsHold, DataImage, Patched, Times, Geometry.BelowData, Geometry.FirstDataSector;
    var clusterSize := d.geo.sectorsPerCluster * 512;
    total := 0;
    DiskSize(d);
    NothingPut(d.sectors, 512 * d.geo.BelowData() + offset);
    assert buf[..0] == [];
    // entry 0 ends the walk at once, and an offset behind the first cluster has the chain extended
    sec := if offset >= clusterSize then d.geo.sectorsPerCluster else offset / 512;
    FirstSector(offset / 512, offset);
    while total < |buf|
      invariant total <= |buf| && BytesPut(old(d.sectors), d.sectors, 512 * d.geo.BelowData() + offset, buf[..total])
      invariant |d.sectors| == |old(d.sectors)| && sec <= d.geo.sectorsPerCluster
      invariant offset >= clusterSize ==> total == 0 && sec == d.geo.sectorsPerCluster
      invariant offset < clusterSize && total < |buf| ==> offset / 512 <= sec == FloorSector(offset + total)
      invariant 0 < total < |buf| ==> (offset + total) % 512 == 0
      invariant total > 0 ==> offset < clusterSize && sec == CeilSectors(offset + total) && d.geo.BelowData() + offset / 512 >= 0
    {
      if sec >= d.geo.sectorsPerCluster {
        return Beyond, total, sec;
      }
      var offsetInSector := (offset + total) % 512;
      var n := Least(512 - offsetInSector, |buf| - total);
      NextPiece(offset + total, |buf| - total, n);
      ghost var was := d.sectors;
      var err := PutPiece(d, d.geo.BelowData() + sec, offsetInSector, buf[total..total + n]);
      if err {
        return Refused, total, sec;
      }
      PutMore(old(d.sectors), was, 512 * d.geo.BelowData() + offset, buf[..total], d.geo.BelowData() + sec,
              offsetInSector, buf[total..total + n]);
      assert buf[..total] + buf[total..total + n] == buf[..total + n];
      total := total + n;
      sec := sec + 1;
    }
    end := Finished;
    assert buf[..total] == buf;
  }

  /** Both FATs hold the same entries after the first of two disks exactly when they do after the second. */
  lemma SameFats(g: Geometry, disk: seq<Sector>, disk': seq<Sector>, fat: Fat)
    requires g.FirstDataSector() <= |disk| == |disk'| && forall n :: 0 <= n < g.FirstDataSector() ==> disk'[n] == disk[n]
    ensures FatsHold(g, disk, fat) <==> FatsHold(g, disk', fat)
  {
    assert disk'[g.Fat1()..g.Fat2()] == disk[g.Fat1()..g.Fat2()];
    assert disk'[g.Fat2()..g.FirstDataSector()] == disk[g.Fat2()..g.FirstDataSector()];
  }

  /** What the write leaves of the volume: data below the data area, and two FATs that agree exactly when it changes none of their bytes. */
  ghost predicate FatsAgreeWhen(d: Disk, before: seq<Sector>, p: int, data: seq<byte>)
    reads d`sectors, d`fat
  {
    && (FatBytesKept(d.geo, before, p, data) ==> FatsHold(d.geo, d.sectors, d.fat))
    && (!FatBytesKept(d.geo, before, p, data) ==> forall f: Fat :: !FatsHold(d.geo, d.sectors, f))
  }

  lemma EntryInRange(d: Disk, f: FileInfo)
    requires DataImage(d.geo, d.sectors, d.clusters) && |d.fat| == d.geo.Entries() && f.EntryPlaced(d) && f.HasEntry()
    ensures d.geo.Valid() && |d.clusters| == |d.fat| && |d.clusters[f.dirCluster]| == d.geo.sectorsPerCluster
  {
  }

  /** The cached directory sector goes to disk, whatever the FATs hold. */
  method WriteEntryAny(f: FileInfo, d: Disk)
    requires d.ioFaults == 0 && DataImage(d.geo, d.sectors, d.clusters) && |d.fat| == d.geo.Entries()
    requires f.HasEntry() && f.EntryPlaced(d)
    modifies d`sectors, d`clusters
    ensures DataImage(d.geo, d.sectors, d.clusters) && |d.sectors| == |old(d.sectors)|
    ensures forall n :: 0 <= n < d.geo.FirstDataSector() && n < |d.sectors| ==> d.sectors[n] == old(d.sectors)[n]
    ensures f.OnlyChanged(old(d.clusters), d.clusters, []) && f.EntryOnDisk(d.clusters)
  {
    hide Times, DataImage, DataSector;
    EntryInRange(d, f);
    SectorInRange(d.geo, f.dirCluster, f.dirSlot);
    SectorWritten(d.geo, d.sectors, d.clusters, f.dirCluster, f.dirSlot, f.dirSectorBuf);
    var err := d.WriteAny(d.geo.partitionStart + f.dirSector, f.dirSectorBuf);
    d.clusters := Stored(d.clusters, f.dirCluster, f.dirSlot, f.dirSectorBuf);
  }

  /** The end of m65ftp_pwrite: the file has a size now, and its entry names cluster 0. */
  method FinishZero(f: FileInfo, d: Disk, sec: nat, offset: nat, total: nat)
    requires d.ioFaults == 0 && DataImage(d.geo, d.sectors, d.clusters) && |d.fat| == d.geo.Entries()
    requires f.EntryPlaced(d) && f.EntryAgrees() && offset + total < 0x1_0000_0000 && f.fileSize < 0x1_0000_0000
    modifies f`writeCluster, f`writeIdx, f`sectorInCluster, f`lastOffset, f`fileSize, f`dirSectorBuf, d`sectors, d`clusters
    ensures DataImage(d.geo, d.sectors, d.clusters) && |d.sectors| == |old(d.sectors)|
    ensures forall n :: 0 <= n < d.geo.FirstDataSector() && n < |d.sectors| ==> d.sectors[n] == old(d.sectors)[n]
    ensures f.OnlyChanged(old(d.clusters), d.clusters, [])
    ensures f.fileSize == MaxOf(old(f.fileSize), offset + total) && f.EntryAgrees()
    ensures f.writeCluster == 0 && f.lastOffset == offset + total && (f.HasEntry() ==> f.EntryOnDisk(d.clusters))
  {
    hide Times, DataImage, DataSector;
    f.writeCluster, f.writeIdx, f.sectorInCluster, f.lastOffset := 0, 0, sec, offset + total;
    if offset + total > f.fileSize {
      f.fileSize := offset + total;
    }
    if f.dirSector >= 0 && f.dirSectorOffset >= 0 {
      f.dirSectorBuf := WithFileSize(f.dirSectorBuf, f.dirSectorOffset, f.fileSize);
      WriteEntryAny(f, d);
    }
  }

  /**
   * m65ftp_pwrite on a direct file without a chain.  The bytes go to the place of
   * cluster 0, below the data area, and the file gets a size; its entry goes on
   * naming cluster 0.  The two FATs agree afterwards exactly when none of their
   * bytes has changed.
   */
  method WriteWithoutChain(f: FileInfo, d: Disk, buf: seq<byte>, offset: nat) returns (end: ChainlessEnd, written: nat)
    requires d.Valid() && WellFormed(d.fat, d.chains) && d.ioFaults == 0
    requires f.OpenDirect(d) && f.id !in d.chains && buf != [] && offset + |buf| < 0x1_0000_0000
    modifies f`writeCluster, f`writeIdx, f`sectorInCluster, f`lastOffset, f`fileSize, f`dirSectorBuf, d`sectors, d`clusters
    ensures end.Refused? <==> offset < d.geo.ClusterSize() && d.geo.BelowData() + offset / 512 < 0
    ensures end.Finished? <==> offset + |buf| <= d.geo.ClusterSize() && d.geo.BelowData() + offset / 512 >= 0
    ensures written == if end.Finished? then |buf| else if end.Beyond? && offset < d.geo.ClusterSize() then d.geo.ClusterSize() - offset else 0
    ensures written <= |buf| && DataImage(d.geo, d.sectors, d.clusters)
    ensures FatsAgreeWhen(d, old(d.sectors), 512 * d.geo.BelowData() + offset, buf[..written])
    ensures |d.sectors| == |old(d.sectors)|
    ensures forall n, b {:trigger d.sectors[n][b]} :: 0 <= n < d.geo.FirstDataSector() && n < |old(d.sectors)| && 0 <= b < 512 ==>
              var i := 512 * n + b - (512 * d.geo.BelowData() + offset);
              d.sectors[n][b] == if 0 <= i < written then buf[i] else old(d.sectors)[n][b]
    ensures end.Finished? ==> f.firstCluster == 0 && f.fileSize == offset + |buf| && f.EntryAgrees() && !f.OpenDirect(d)
    ensures end.Finished? ==> f.writeCluster == 0 && f.lastOffset == offset + |buf|
    ensures end.Finished? && f.HasEntry() ==> f.EntryOnDisk(d.clusters)
    ensures f.OnlyChanged(old(d.clusters), d.clusters, [])
    ensures !end.Finished? ==> unchanged(f) && d.clusters == old(d.clusters)
  {
    hide BytesPut, FatsHold, DataImage, FatBytesKept, WellFormed;
    DiskShape(d);
    DiskSize(d);
    ghost var before, p := d.sectors, 512 * d.geo.BelowData() + offset;
    var sec;
    end, written, sec := WriteZero(d, buf, offset);
    InZero(d.geo, offset, written);
    FatsAgreeExactly(d.geo, before, d.sectors, d.fat, p, buf[..written]);
    DataKept(d.geo, before, d.sectors, d.clusters, p, buf[..written]);
    ghost var image := d.sectors;
    if end.Finished? {
      FinishZero(f, d, sec, offset, written);
    }
    Afterwards(d, before, image, p, buf[..written]);
  }

  lemma InZero(g: Geometry, offset: nat, written: nat)
    requires written > 0 ==> offset + written <= g.ClusterSize()
    ensures 512 * g.BelowData() <= 512 * g.BelowData() + offset
    ensures written > 0 ==> 512 * g.BelowData() + offset + written <= 512 * (g.FirstDataSector() - g.sectorsPerCluster)
  {
  }

  lemma Afterwards(d: Disk, before: seq<Sector>, image: seq<Sector>, p: int, data: seq<byte>)
    requires |d.sectors| == |image| && d.geo.FirstDataSector() <= |image| && BytesPut(before, image, p, data)
    requires forall n :: 0 <= n < d.geo.FirstDataSector() ==> d.sectors[n] == image[n]
    requires FatBytesKept(d.geo, before, p, data) ==> FatsHold(d.geo, image, d.fat)
    requires !FatBytesKept(d.geo, before, p, data) ==> forall f: Fat :: !FatsHold(d.geo, image, f)
    ensures FatsAgreeWhen(d, before, p, data)
    ensures forall n, b {:trigger d.sectors[n][b]} :: 0 <= n < d.geo.FirstDataSector() && 0 <= b < 512 ==>
              d.sectors[n][b] == if p <= 512 * n + b < p + |data| then data[512 * n + b - p] else before[n][b]
  {
    hide FatsHold, FatBytesKept;
    forall f: Fat ensures FatsHold(d.geo, image, f) <==> FatsHold(d.geo, d.sectors, f) {
      SameFats(d.geo, image, d.sectors, f);
    }
  }
}
