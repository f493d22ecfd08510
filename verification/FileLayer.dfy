/** Open files: buffered until flushed, then read and written directly on their chains. */
module FileLayer {
  import opened Bytes
  import opened Chains
  import opened Volume
  import opened Allocator
  import opened Linking
  import opened Contents
  import opened Arith
  import opened DirFields
  import opened Splicing
  import opened Growing
  import VR = VolumeRuns

  /** How a call ends; Hung is the search for a run that never ends. */
  datatype Status = Done | Failed | Hung

  /** A chain of a well-formed volume lies on existing clusters. */
  lemma ChainHolds(d: Disk, ch: seq<nat>)
    requires d.Valid() && forall c :: c in ch ==> 2 <= c < |d.fat|
    ensures Holds(d.clusters, ch, d.geo.sectorsPerCluster)
  {
    forall j | 0 <= j < |ch| ensures ch[j] < |d.clusters| && |d.clusters[ch[j]]| == d.geo.sectorsPerCluster {
      assert ch[j] in ch;
    }
  }

  /** What every valid disk has. */
  lemma DiskShape(d: Disk)
    requires d.Valid()
    ensures d.geo.sectorsPerCluster > 0 && |d.clusters| == |d.fat| == d.geo.Entries() <= END_MARK
    ensures forall c :: 0 <= c < |d.clusters| ==> |d.clusters[c]| == d.geo.sectorsPerCluster
  {
  }

  /** The clusters of an owner. */
  lemma OwnChain(fat: Fat, chains: map<int, seq<nat>>, id: int)
    requires WellFormed(fat, chains) && id in chains
    ensures |fat| <= END_MARK && IsChain(fat, chains[id])
    ensures forall c :: c in chains[id] ==> 2 <= c < |fat| && fat[c] != 0
  {
    forall c | c in chains[id] ensures 2 <= c < |fat| && fat[c] != 0 {
      OwnedIsUsed(fat, chains[id], c);
    }
  }

  /** The sector a flush writes for offset off: the buffer, zeros past its end, and zeros past the size. */
  function FlushSector(buf: seq<byte>, size: nat, off: nat): (r: Sector)
    requires off < size
    ensures forall b :: 0 <= b < 512 ==> r[b] == if off + b < size && off + b < |buf| then buf[off + b] else 0
  {
    if off < |buf| then PadSector(buf[off..off + Least(|buf| - off, Least(size - off, 512))]) else ZeroSector()
  }

  function Least(a: nat, b: nat): nat {
    if a < b then a else b
  }

  /** memset of a sector buffer to zero, then memcpy of data to its front. */
  function PadSector(data: seq<byte>): (r: Sector)
    requires |data| <= 512
    ensures forall b :: 0 <= b < 512 ==> r[b] == if b < |data| then data[b] else 0
  {
    data + ZeroSector()[|data|..]
  }

  /** The first k sectors of the file are those a flush writes. */
  ghost predicate Flushed(cl: Clusters, ch: seq<nat>, spc: nat, buf: seq<byte>, size: nat, k: nat)
    requires size <= Times(|ch|, spc) * 512
  {
    && Holds(cl, ch, spc)
    && forall j {:trigger SectorAt(cl, ch, spc, j)} :: 0 <= j < k && j * 512 < size ==> SectorAt(cl, ch, spc, j) == FlushSector(buf, size, j * 512)
  }

  lemma FlushedNext(cl: Clusters, ch: seq<nat>, spc: nat, buf: seq<byte>, size: nat, j: nat, s: nat)
    requires size <= Times(|ch|, spc) * 512 && Distinct(ch) && j < |ch| && s < spc
    requires var k := Times(j, spc) + s; k * 512 < size && Flushed(cl, ch, spc, buf, size, k)
    ensures Flushed(Stored(cl, ch[j], s, FlushSector(buf, size, (Times(j, spc) + s) * 512)), ch, spc, buf, size, Times(j, spc) + s + 1)
  {
    var k := Times(j, spc) + s;
    var sector := FlushSector(buf, size, k * 512);
    var cl' := Stored(cl, ch[j], s, sector);
    SectorStored(cl, ch, spc, j, s, sector);
    TimesMono(j, |ch|, spc);
    forall i | 0 <= i < k + 1 && i * 512 < size ensures SectorAt(cl', ch, spc, i) == FlushSector(buf, size, i * 512) {
      assert SectorAt(cl', ch, spc, i) == if i == k then sector else SectorAt(cl, ch, spc, i);
    }
  }

  /** struct m65ftp_fileinfo.  A NULL write_buf is the empty sequence. */
  class FileInfo {
    ghost const id: int
    var firstCluster: nat
    var fileSize: nat
    var currentCluster: nat
    var currentClusterIdx: nat
    var lastOffset: nat
    const dirSector: int
    const dirSectorOffset: int
    var dirSectorBuf: Sector
    var buffered: bool
    var writeBuf: seq<byte>
    var writeCluster: nat
    var sectorInCluster: nat

    /** The place of the directory sector in the data area. */
    ghost const dirCluster: nat
    ghost const dirSlot: nat
    /** The index of writeCluster in the chain. */
    ghost var writeIdx: nat

    predicate HasEntry() {
      dirSector >= 0 && dirSectorOffset >= 0
    }

    /** The directory sector is a sector of a used cluster that is not the file's. */
    ghost predicate EntryPlaced(d: Disk)
      reads d`fat, d`chains
    {
      HasEntry() ==>
        && dirSectorOffset + 32 <= 512
        && 2 <= dirCluster < |d.fat| && dirSlot < d.geo.sectorsPerCluster && d.fat[dirCluster] != 0
        && d.geo.partitionStart + dirSector == d.geo.SectorOf(dirCluster, dirSlot)
        && (id in d.chains ==> dirCluster !in d.chains[id])
    }

    /** cl' differs from cl only on the clusters in ch and in the directory sector, which may hold the cached copy. */
    ghost predicate OnlyChanged(cl: Clusters, cl': Clusters, ch: seq<nat>)
      reads this`dirSectorBuf
    {
      && |cl'| == |cl|
      && (forall c :: 0 <= c < |cl| && c !in ch && !(HasEntry() && c == dirCluster) ==> cl'[c] == cl[c])
      && (HasEntry() && dirCluster < |cl| && dirSlot < |cl[dirCluster]| ==>
            cl'[dirCluster] == cl[dirCluster] || cl'[dirCluster] == cl[dirCluster][dirSlot := dirSectorBuf])
    }

    /** write_sector(partition_start + dir_sector, dir_sector_buf), its result ignored. */
    method WriteEntry(d: Disk)
      requires d.Valid() && HasEntry() && EntryPlaced(d)
      modifies d`sectors, d`clusters, d`ioFaults
      ensures d.Valid() && d.ioFaults <= old(d.ioFaults)
      ensures OnlyChanged(old(d.clusters), d.clusters, [])
      ensures d.ioFaults == old(d.ioFaults) ==> d.clusters == Stored(old(d.clusters), dirCluster, dirSlot, dirSectorBuf)
    {
      var e := d.WriteSector(d.geo.partitionStart + dirSector, dirCluster, dirSlot, dirSectorBuf);
    }

    /** One sector of the data loop of flush_write_buffer. */
    method WriteRunSector(d: Disk, start: nat, ghost n: nat, cluster: nat, sec: nat) returns (err: bool)
      requires d.Valid() && 2 <= start <= cluster < start + n <= |d.fat| && sec < d.geo.sectorsPerCluster
      requires fileSize <= Times(n, d.geo.sectorsPerCluster) * 512
      requires var k := Times(cluster - start, d.geo.sectorsPerCluster) + sec;
               k * 512 < fileSize && Flushed(d.clusters, Run(start, n), d.geo.sectorsPerCluster, writeBuf, fileSize, k)
      modifies d`sectors, d`clusters, d`ioFaults
      ensures d.Valid() && SameOutside(old(d.clusters), d.clusters, start, n)
      ensures if err then d.ioFaults < old(d.ioFaults) else d.ioFaults == old(d.ioFaults)
      ensures var k := Times(cluster - start, d.geo.sectorsPerCluster) + sec;
              !err ==> Flushed(d.clusters, Run(start, n), d.geo.sectorsPerCluster, writeBuf, fileSize, k + 1)
    {
      hide Quot, Rem, Times, FatsHold, DataImage, SectorAt, Flushed, FlushSector;
      DiskShape(d);
      var spc := d.geo.sectorsPerCluster;
      var off := (cluster - start) * (spc * 512) + sec * 512;
      PlaceOffset(cluster - start, sec, spc);
      var sectorBuffer := FlushSector(writeBuf, fileSize, off);
      ghost var ch := Run(start, n);
      assert ch[cluster - start] == cluster;
      FlushedNext(d.clusters, ch, spc, writeBuf, fileSize, cluster - start, sec);
      assert Flushed(Stored(d.clusters, cluster, sec, sectorBuffer), ch, spc, writeBuf, fileSize, Times(cluster - start, spc) + sec + 1);
      err := d.WriteSector(d.geo.SectorOf(cluster, sec), cluster, sec, sectorBuffer);
    }

    /** The data loop of flush_write_buffer: the file's sectors, cluster after cluster from start. */
    method WriteRun(d: Disk, start: nat, ghost n: nat) returns (err: bool)
      requires d.Valid() && 2 <= start && start + n <= |d.fat|
      requires fileSize <= Times(n, d.geo.sectorsPerCluster) * 512
      modifies d`sectors, d`clusters, d`ioFaults
      ensures d.Valid() && SameOutside(old(d.clusters), d.clusters, start, n)
      ensures if err then d.ioFaults < old(d.ioFaults) else d.ioFaults == old(d.ioFaults)
      ensures !err ==> Flushed(d.clusters, Run(start, n), d.geo.sectorsPerCluster, writeBuf, fileSize, Times(n, d.geo.sectorsPerCluster))
    {
      hide FatImage, DataSector, FatsHold, DataImage, Quot, Rem, SectorAt, FlushSector;
      var spc := d.geo.sectorsPerCluster;
      var remaining := fileSize;
      var cluster := start;
      ghost var ch := Run(start, n);
      ChainHolds(d, ch);
      while remaining > 0
        invariant start <= cluster <= start + n
        invariant remaining == Left(fileSize, Times(cluster - start, spc))
        invariant d.Valid() && d.ioFaults == old(d.ioFaults) && SameOutside(old(d.clusters), d.clusters, start, n)
        invariant Flushed(d.clusters, ch, spc, writeBuf, fileSize, Times(cluster - start, spc))
        decreases remaining
      {
        var sec := 0;
        while sec < spc && remaining > 0
          invariant sec <= spc && cluster < start + n
          invariant remaining == Left(fileSize, Times(cluster - start, spc) + sec)
          invariant d.Valid() && d.ioFaults == old(d.ioFaults) && SameOutside(old(d.clusters), d.clusters, start, n)
          invariant Flushed(d.clusters, ch, spc, writeBuf, fileSize, Times(cluster - start, spc) + sec)
        {
          err := WriteRunSector(d, start, n, cluster, sec);
          if err {
            return;
          }
          remaining := remaining - Least(remaining, 512);
          sec := sec + 1;
        }
        cluster := cluster + 1;
      }
      err := false;
    }

    /** The descriptor's fields when it reads and writes its chain directly. */
    ghost predicate Direct(d: Disk)
      reads this`buffered, this`firstCluster, this`fileSize, this`dirSectorBuf, d`fat, d`chains, d`clusters
    {
      && !buffered && id in d.chains && IsChain(d.fat, d.chains[id])
      && d.chains[id][0] == firstCluster
      && fileSize <= Times(|d.chains[id]|, d.geo.sectorsPerCluster) * 512
      && Holds(d.clusters, d.chains[id], d.geo.sectorsPerCluster)
      && EntryPlaced(d)
      && EntryAgrees()
    }

    /** The cached directory entry names the file's first cluster and size. */
    ghost predicate EntryAgrees()
      reads this`firstCluster, this`fileSize, this`dirSectorBuf
    {
      HasEntry() ==>
        && dirSectorOffset + 32 <= 512
        && EntryCluster(dirSectorBuf, dirSectorOffset) == firstCluster
        && EntrySize(dirSectorBuf, dirSectorOffset) == fileSize
    }

    /** Set both fields of the cached entry and write its sector; a descriptor without an entry does nothing. */
    method SaveEntry(d: Disk, cluster: nat, size: nat)
      requires d.Valid() && EntryPlaced(d) && cluster < 0x1_0000_0000 && size < 0x1_0000_0000
      modifies this`dirSectorBuf, d`sectors, d`clusters, d`ioFaults
      ensures d.Valid() && OnlyChanged(old(d.clusters), d.clusters, [])
      ensures d.ioFaults <= old(d.ioFaults)
      ensures HasEntry() ==> SameButFields(old(dirSectorBuf), dirSectorBuf, dirSectorOffset)
      ensures HasEntry() ==> EntryCluster(dirSectorBuf, dirSectorOffset) == cluster && EntrySize(dirSectorBuf, dirSectorOffset) == size
      ensures HasEntry() && d.ioFaults == old(d.ioFaults) ==> EntryOnDisk(d.clusters)
    {
      if dirSector >= 0 && dirSectorOffset >= 0 {
        dirSectorBuf := WithFileSize(WithFirstCluster(dirSectorBuf, dirSectorOffset, cluster), dirSectorOffset, size);
        WriteEntry(d);
      }
    }

    ghost predicate EntryOnDisk(cl: Clusters)
      reads this`dirSectorBuf
    {
      dirCluster < |cl| && dirSlot < |cl[dirCluster]| && cl[dirCluster][dirSlot] == dirSectorBuf
    }

    /** Link a block of free clusters for the file and write the buffer to it. */
    method StoreBlock(d: Disk, start: nat, n: nat) returns (err: bool)
      requires d.Valid() && WellFormed(d.fat, d.chains) && d.fatFaults == 0 && id !in d.chains
      requires n > 0 && RunAt(d.fat, start, n) && fileSize <= Times(n, d.geo.sectorsPerCluster) * 512
      modifies d`sectors, d`fat, d`clusters, d`chains, d`fatFaults, d`ioFaults
      ensures d.Valid() && d.fatFaults == 0 && d.fat == LinkRun(old(d.fat), start, n)
      ensures SameOutside(old(d.clusters), d.clusters, start, n) && UsedKept(old(d.fat), old(d.clusters), d.fat, d.clusters)
      ensures if err then d.ioFaults < old(d.ioFaults) else d.ioFaults == old(d.ioFaults)
      ensures err ==> d.chains == old(d.chains)
      ensures !err ==> d.chains == old(d.chains)[id := Run(start, n)] && WellFormed(d.fat, d.chains)
      ensures !err ==> Flushed(d.clusters, Run(start, n), d.geo.sectorsPerCluster, writeBuf, fileSize, Times(n, d.geo.sectorsPerCluster))
    {
      LinkBlock(d, start, n);
      err := WriteRun(d, start, n);
      if !err {
        NewBlock(old(d.fat), d.chains, id, start, n);
        d.chains := d.chains[id := Run(start, n)];
      }
    }

    /**
     * flush_write_buffer.  Nothing else of the volume changes: only clusters that
     * were free, and the file's own directory sector.
     */
    method FlushWriteBuffer(d: Disk) returns (r: Status)
      requires d.Valid() && WellFormed(d.fat, d.chains) && d.fatFaults == 0
      requires buffered && id !in d.chains && EntryPlaced(d)
      requires fileSize + d.geo.sectorsPerCluster * 512 - 1 < 0x1_0000_0000
      modifies this, d`sectors, d`fat, d`clusters, d`chains, d`fatFaults, d`ioFaults
      ensures d.Valid() && d.fatFaults == 0 && fileSize == old(fileSize) && d.ioFaults <= old(d.ioFaults)
      ensures HasEntry() ==> SameButFields(old(dirSectorBuf), dirSectorBuf, dirSectorOffset)
      ensures r.Done? && fileSize == 0 ==>
                && d.fat == old(d.fat) && d.chains == old(d.chains) && firstCluster == 0 && !buffered
                && OnlyChanged(old(d.clusters), d.clusters, []) && EntryAgrees()
                && unchanged(`writeCluster, `sectorInCluster, `lastOffset, `currentCluster, `currentClusterIdx)
      ensures r.Done? ==> writeBuf == []
      ensures r.Done? && fileSize > 0 ==> OnNewBlock(d, old(d.fat), old(d.chains), old(d.clusters), old(writeBuf)) && AtStart()
      ensures r.Done? && d.ioFaults == old(d.ioFaults) && HasEntry() ==> EntryOnDisk(d.clusters)
      ensures !r.Done? ==> unchanged(this) && d.chains == old(d.chains)
      ensures !r.Done? ==> UsedKept(old(d.fat), old(d.clusters), d.fat, d.clusters)
      ensures d.geo.sectorsPerCluster > 0 && (fileSize == 0 ==> r.Done?)
      ensures fileSize > 0 && !SomeRun(old(d.fat), ClustersFor(fileSize, d.geo.sectorsPerCluster)) ==>
                r == SearchEnds(old(d.fat), ClustersFor(fileSize, d.geo.sectorsPerCluster)) && d.fat == old(d.fat)
      ensures fileSize > 0 && SomeRun(old(d.fat), ClustersFor(fileSize, d.geo.sectorsPerCluster)) ==>
                r.Done? || (r.Failed? && d.ioFaults < old(d.ioFaults) && Leaked(old(d.fat), d.fat, d.chains))
    {
      DiskShape(d);
      if fileSize == 0 {
        SaveEntry(d, 0, 0);
        writeBuf, buffered, firstCluster := [], false, 0;
        return Done;
      }
      var clusterSize := d.geo.sectorsPerCluster * 512;
      var needed := Quot(fileSize + clusterSize - 1, clusterSize);
      ClustersNeeded(fileSize, d.geo.sectorsPerCluster);
      var found := FindContiguousClusters(d, needed);
      if found.Endless? {
        return Hung;
      } else if found.NothingFree? {
        NoneFreeMeansNoRun(d.fat, needed);
        return Failed;
      }
      RunMeansFree(d.fat, found.start, needed);
      r := FlushToBlock(d, found.start, needed);
    }

    /** Both remembered positions are at the start of the file. */
    ghost predicate AtStart()
      reads this`firstCluster, this`writeCluster, this`writeIdx, this`sectorInCluster, this`lastOffset, this`currentCluster, this`currentClusterIdx
    {
      && writeCluster == currentCluster == firstCluster
      && writeIdx == currentClusterIdx == sectorInCluster == lastOffset == 0
    }

    /** The file lies on the lowest free run long enough for it, holds the buffer, and nothing else has changed. */
    ghost predicate OnNewBlock(d: Disk, fat: Fat, chains: map<int, seq<nat>>, cl: Clusters, buf: seq<byte>)
      reads this, d
    {
      d.geo.sectorsPerCluster > 0 &&
      var n := ClustersFor(fileSize, d.geo.sectorsPerCluster);
      && RunAt(fat, firstCluster, n)
      && (forall s :: 0 <= s < firstCluster ==> !RunAt(fat, s, n))
      && d.fat == LinkRun(fat, firstCluster, n)
      && d.chains == chains[id := Run(firstCluster, n)]
      && VR.Became(VR.Tables(fat, chains), VR.Flush(id, firstCluster, n), VR.Tables(d.fat, d.chains))
      && WellFormed(d.fat, d.chains) && Direct(d)
      && BytesAre(d.clusters, d.chains[id], d.geo.sectorsPerCluster, buf, fileSize)
      && OnlyChanged(cl, d.clusters, d.chains[id])
    }

    /** flush_write_buffer once a run has been found. */
    method FlushToBlock(d: Disk, start: nat, needed: nat) returns (r: Status)
      requires d.Valid() && WellFormed(d.fat, d.chains) && d.fatFaults == 0
      requires buffered && id !in d.chains && EntryPlaced(d) && 0 < fileSize < 0x1_0000_0000
      requires needed == ClustersFor(fileSize, d.geo.sectorsPerCluster) && RunAt(d.fat, start, needed)
      requires forall s :: 0 <= s < start ==> !RunAt(d.fat, s, needed)
      modifies this, d`sectors, d`fat, d`clusters, d`chains, d`fatFaults, d`ioFaults
      ensures d.Valid() && d.fatFaults == 0 && fileSize == old(fileSize) && !r.Hung? && d.ioFaults <= old(d.ioFaults)
      ensures HasEntry() ==> SameButFields(old(dirSectorBuf), dirSectorBuf, dirSectorOffset)
      ensures r.Done? ==> OnNewBlock(d, old(d.fat), old(d.chains), old(d.clusters), old(writeBuf)) && AtStart() && writeBuf == []
      ensures r.Done? && d.ioFaults == old(d.ioFaults) && HasEntry() ==> EntryOnDisk(d.clusters)
      ensures !r.Done? ==> unchanged(this) && d.chains == old(d.chains)
      ensures !r.Done? ==> UsedKept(old(d.fat), old(d.clusters), d.fat, d.clusters)
      ensures r.Failed? ==> d.ioFaults < old(d.ioFaults) && Leaked(old(d.fat), d.fat, d.chains)
    {
      ClustersNeeded(fileSize, d.geo.sectorsPerCluster);
      var err := StoreBlock(d, start, needed);
      if err {
        LeakedRun(old(d.fat), d.chains, start, needed);
        return Failed;
      }
      assert EntryPlaced(d) by {
        assert HasEntry() ==> dirCluster !in Run(start, needed);
      }
      FinishFlush(d, start, needed);
      return Done;
    }

    /** The end of flush_write_buffer: the directory entry and the descriptor name the new chain. */
    method FinishFlush(d: Disk, start: nat, ghost n: nat)
      requires d.Valid() && id in d.chains && d.chains[id] == Run(start, n) && IsChain(d.fat, d.chains[id])
      requires EntryPlaced(d) && start < 0x1_0000_0000 && fileSize < 0x1_0000_0000 && n > 0
      requires fileSize <= Times(n, d.geo.sectorsPerCluster) * 512
      requires Flushed(d.clusters, Run(start, n), d.geo.sectorsPerCluster, writeBuf, fileSize, Times(n, d.geo.sectorsPerCluster))
      modifies this, d`sectors, d`clusters, d`ioFaults
      ensures d.Valid() && d.ioFaults <= old(d.ioFaults) && fileSize == old(fileSize) && firstCluster == start && AtStart() && writeBuf == []
      ensures HasEntry() ==> SameButFields(old(dirSectorBuf), dirSectorBuf, dirSectorOffset)
      ensures Direct(d) && OnlyChanged(old(d.clusters), d.clusters, [])
      ensures BytesAre(d.clusters, d.chains[id], d.geo.sectorsPerCluster, old(writeBuf), fileSize)
      ensures d.ioFaults == old(d.ioFaults) && HasEntry() ==> EntryOnDisk(d.clusters)
    {
      hide FatsHold, DataImage, Quot, Rem, Times, SectorAt, Flushed, IsChain, AtStart, SameButFields, BytesAre;
      FlushedBytes(d.clusters, d.chains[id], d.geo.sectorsPerCluster, writeBuf, fileSize);
      SaveEntry(d, start, fileSize);
      BytesAreFrame(old(d.clusters), d.clusters, d.chains[id], d.geo.sectorsPerCluster, writeBuf, fileSize);
      GoDirect(start);
    }

    /** The fields of a flushed file. */
    method GoDirect(start: nat)
      modifies this`firstCluster, this`writeCluster, this`writeIdx, this`sectorInCluster, this`lastOffset
      modifies this`currentCluster, this`currentClusterIdx, this`writeBuf, this`buffered
      ensures AtStart() && firstCluster == start && writeBuf == [] && !buffered
    {
      firstCluster, writeCluster, writeIdx, sectorInCluster, lastOffset := start, start, 0, 0, 0;
      currentCluster, currentClusterIdx := start, 0;
      writeBuf, buffered := [], false;
    }

    /** The place in the chain where a direct read at offset starts: the remembered one when it continues the last call. */
    function StartIndex(offset: nat): nat
      reads this`lastOffset, this`currentClusterIdx
    {
      if offset == lastOffset then currentClusterIdx else 0
    }

    /** The remembered read position is on the chain. */
    ghost predicate Remembers(d: Disk)
      reads this`currentCluster, this`currentClusterIdx, d`chains
    {
      id in d.chains && currentClusterIdx < |d.chains[id]| && d.chains[id][currentClusterIdx] == currentCluster
    }

    /** The remembered cluster is not past the place of the last offset, so that a read can go on from it. */
    ghost predicate ReadPosition(spc: nat)
      requires spc > 0
      reads this`currentClusterIdx, this`lastOffset
    {
      currentClusterIdx <= Quot(lastOffset / 512, spc)
    }

    /** m65ftp_pread on a buffered file. */
    method PreadBuffered(count: nat, offset: nat) returns (data: seq<byte>)
      requires buffered
      ensures |data| == ReadLength(fileSize, offset, count)
      ensures forall i :: 0 <= i < |data| ==> data[i] == BufferedByte(writeBuf, offset + i)
    {
      if count == 0 || offset >= fileSize {
        return [];
      }
      var n := if offset + count > fileSize then fileSize - offset else count;
      var avail := |writeBuf|;
      if offset < avail {
        var fromBuf := if offset + n > avail then avail - offset else n;
        data := writeBuf[offset..offset + fromBuf] + seq(n - fromBuf, _ => 0);
      } else {
        data := seq(n, _ => 0);
      }
    }

    /**
     * The inner loop of m65ftp_pread: follow the masked links to the cluster of
     * the current offset.
     */
    method WalkTo(d: Disk, from: nat, fromIndex: nat, target: nat) returns (cluster: nat, index: nat)
      requires d.Valid() && WellFormed(d.fat, d.chains) && id in d.chains
      requires fromIndex < |d.chains[id]| && from == d.chains[id][fromIndex] && target < |d.chains[id]|
      ensures index == MaxOf(fromIndex, target) && cluster == d.chains[id][index]
    {
      ghost var ch := d.chains[id];
      cluster, index := from, fromIndex;
      while index < target
        invariant fromIndex <= index <= MaxOf(fromIndex, target) && cluster == ch[index]
      {
        assert d.fat[ch[index]] == ch[index + 1];
        cluster := d.GetNextCluster(cluster);
        index := index + 1;
        if cluster >= END_MARK {
          break;
        }
      }
    }

    /** One turn of the loop of m65ftp_pread: the bytes of the sector at currentOffset, at most remaining. */
    method ReadPiece(d: Disk, from: nat, fromIndex: nat, currentOffset: nat, remaining: nat, ghost si: nat)
      returns (err: bool, cluster: nat, index: nat, piece: seq<byte>)
      requires d.Valid() && WellFormed(d.fat, d.chains) && Direct(d)
      requires fromIndex < |d.chains[id]| && from == d.chains[id][fromIndex] && currentOffset < fileSize
      requires d.geo.sectorsPerCluster > 0 && si <= fromIndex <= ReadIndex(si, currentOffset, d.geo.sectorsPerCluster)
      modifies d`ioFaults
      ensures d.Valid() && if err then d.ioFaults == old(d.ioFaults) - 1 else d.ioFaults == old(d.ioFaults)
      ensures index == ReadIndex(si, currentOffset, d.geo.sectorsPerCluster)
      ensures index < |d.chains[id]| && cluster == d.chains[id][index]
      ensures !err ==> |piece| == Least(512 - currentOffset % 512, remaining)
      ensures !err ==> BytesFrom(d.clusters, d.chains[id], d.geo.sectorsPerCluster, si, currentOffset, piece)
    {
      var clusterSize := d.geo.sectorsPerCluster * 512;
      OffsetPlace(currentOffset, d.geo.sectorsPerCluster);
      QuotBound(currentOffset / 512, |d.chains[id]|, d.geo.sectorsPerCluster);
      cluster, index := WalkTo(d, from, fromIndex, Quot(currentOffset, clusterSize));
      var offsetInCluster := Rem(currentOffset, clusterSize);
      var sectorInCluster := offsetInCluster / 512;
      var offsetInSector := offsetInCluster % 512;
      var bytesFromSector := Least(512 - offsetInSector, remaining);
      SectorBytes(d.clusters, d.chains[id], d.geo.sectorsPerCluster, si, currentOffset, bytesFromSector);
      var sector;
      err, sector := d.ReadSector(d.geo.SectorOf(cluster, sectorInCluster), cluster, sectorInCluster);
      piece := sector[offsetInSector..offsetInSector + bytesFromSector];
    }

    /** The position a read leaves for the next one. */
    method Remember(cluster: nat, index: nat, offset: nat)
      modifies this`currentCluster, this`currentClusterIdx, this`lastOffset
      ensures currentCluster == cluster && currentClusterIdx == index && lastOffset == offset
    {
      currentCluster, currentClusterIdx, lastOffset := cluster, index, offset;
    }

    /**
     * m65ftp_pread on the chain.  Byte i of the result is the byte of the file at
     * offset + i, unless the remembered cluster lies past its place.
     */
    method PreadDirect(d: Disk, count: nat, offset: nat) returns (n: int, data: seq<byte>)
      requires d.Valid() && WellFormed(d.fat, d.chains) && OpenDirect(d) && (id in d.chains ==> Remembers(d))
      modifies this`currentCluster, this`currentClusterIdx, this`lastOffset, d`ioFaults
      ensures d.Valid() && OpenDirect(d) && (id in d.chains ==> Remembers(d))
      ensures n == if data == [] && d.ioFaults < old(d.ioFaults) then -1 else |data|
      ensures if d.ioFaults == old(d.ioFaults) then n == ReadLength(fileSize, offset, count)
              else d.ioFaults == old(d.ioFaults) - 1 && |data| < ReadLength(fileSize, offset, count)
      ensures id in d.chains ==>
                BytesFrom(d.clusters, d.chains[id], d.geo.sectorsPerCluster, old(StartIndex(offset)), offset, data)
      ensures lastOffset == if ReadLength(fileSize, offset, count) == 0 then old(lastOffset) else offset + |data|
      ensures ReadLength(fileSize, offset, count) == 0 ==> currentClusterIdx == old(currentClusterIdx)
      ensures data != [] && d.ioFaults == old(d.ioFaults) ==>
                currentClusterIdx == ReadIndex(old(StartIndex(offset)), offset + |data| - 1, d.geo.sectorsPerCluster)
      ensures d.ioFaults < old(d.ioFaults) ==>
                d.geo.sectorsPerCluster > 0 && currentClusterIdx == ReadIndex(old(StartIndex(offset)), offset + |data|, d.geo.sectorsPerCluster)
      ensures d.geo.sectorsPerCluster > 0 && old(ReadPosition(d.geo.sectorsPerCluster)) ==> ReadPosition(d.geo.sectorsPerCluster)
    {
      data := [];
      if count == 0 || firstCluster == 0 || offset >= fileSize {
        if id in d.chains {
          ReadNothing(d.clusters, d.chains[id], d.geo.sectorsPerCluster, StartIndex(offset), offset);
        }
        return 0, data;
      }
      n, data := ReadLoop(d, count, offset);
    }

    /** The loop of m65ftp_pread stands at sector `index` of the chain and has read data. */
    ghost predicate Reading(d: Disk, cluster: nat, index: nat, si: nat, offset: nat, data: seq<byte>)
      reads this`buffered, this`firstCluster, this`fileSize, this`dirSectorBuf, d`sectors, d`fat, d`chains, d`clusters
    {
      && d.Valid() && WellFormed(d.fat, d.chains) && Direct(d) && d.geo.sectorsPerCluster > 0
      && index < |d.chains[id]| && cluster == d.chains[id][index] < END_MARK
      && index == (if data == [] then si else ReadIndex(si, offset + |data| - 1, d.geo.sectorsPerCluster))
      && BytesFrom(d.clusters, d.chains[id], d.geo.sectorsPerCluster, si, offset, data)
    }

    /** One turn of that loop. */
    method ReadNext(d: Disk, from: nat, fromIndex: nat, remaining: nat, offset: nat, data: seq<byte>, ghost si: nat)
      returns (err: bool, cluster: nat, index: nat, piece: seq<byte>)
      requires Reading(d, from, fromIndex, si, offset, data) && remaining > 0 && offset + |data| + remaining <= fileSize
      modifies d`ioFaults
      ensures if err then d.ioFaults == old(d.ioFaults) - 1 else d.ioFaults == old(d.ioFaults)
      ensures id in d.chains && index < |d.chains[id]| && cluster == d.chains[id][index]
      ensures d.geo.sectorsPerCluster > 0 && index == ReadIndex(si, offset + |data|, d.geo.sectorsPerCluster)
      ensures !err ==> 0 < |piece| <= remaining && Reading(d, cluster, index, si, offset, data + piece)
    {
      hide FatsHold, DataImage, EntryPlaced, EntryAgrees, Disjoint, Covered, AllChains, ByteFrom, Quot, Rem, Times, BytesFrom, ReadIndex,
           IsChain, Holds;
      OwnChain(d.fat, d.chains, id);
      ReadIndexMono(si, offset + |data|, d.geo.sectorsPerCluster);
      err, cluster, index, piece := ReadPiece(d, from, fromIndex, offset + |data|, remaining, si);
      assert cluster in d.chains[id];
      if !err {
        PieceAppended(d.clusters, d.chains[id], d.geo.sectorsPerCluster, si, offset, data, piece);
        PieceIndex(si, offset + |data|, |piece|, d.geo.sectorsPerCluster);
      }
    }

    /** Where that loop begins: at the remembered cluster when the read continues the last call, else at the first. */
    method StartReading(d: Disk, offset: nat) returns (cluster: nat, index: nat)
      requires d.Valid() && WellFormed(d.fat, d.chains) && Direct(d) && Remembers(d)
      ensures index == StartIndex(offset) && Reading(d, cluster, index, index, offset, [])
    {
      hide FatsHold, DataImage, Disjoint, Covered, AllChains;
      DiskShape(d);
      OwnChain(d.fat, d.chains, id);
      cluster, index := firstCluster, 0;
      if offset == lastOffset {
        cluster, index := currentCluster, currentClusterIdx;
      }
      assert cluster in d.chains[id];
      ReadNothing(d.clusters, d.chains[id], d.geo.sectorsPerCluster, index, offset);
    }

    lemma ReadingShape(d: Disk, cluster: nat, index: nat, si: nat, offset: nat, data: seq<byte>)
      requires Reading(d, cluster, index, si, offset, data)
      ensures d.Valid() && Direct(d) && id in d.chains && index < |d.chains[id]| && cluster == d.chains[id][index] < END_MARK
      ensures d.geo.sectorsPerCluster > 0 && BytesFrom(d.clusters, d.chains[id], d.geo.sectorsPerCluster, si, offset, data)
      ensures data != [] ==> index == ReadIndex(si, offset + |data| - 1, d.geo.sectorsPerCluster)
    {
    }

    /** Where that loop ends, having looked for byte p last; the next read goes on from there. */
    method LeaveAt(d: Disk, cluster: nat, index: nat, ghost si: nat, ghost offset: nat, ghost p: nat, at: nat)
      requires id in d.chains && index < |d.chains[id]| && cluster == d.chains[id][index] && d.geo.sectorsPerCluster > 0
      requires offset <= p <= at && index == ReadIndex(si, p, d.geo.sectorsPerCluster)
      modifies this`currentCluster, this`currentClusterIdx, this`lastOffset
      ensures Remembers(d) && currentClusterIdx == index && lastOffset == at
      ensures si <= Quot(offset / 512, d.geo.sectorsPerCluster) ==> ReadPosition(d.geo.sectorsPerCluster)
    {
      hide Quot, ReadIndex;
      IndexFits(si, offset, p, d.geo.sectorsPerCluster);
      IndexFits(si, p, at, d.geo.sectorsPerCluster);
      Remember(cluster, index, at);
    }

    /** The body of m65ftp_pread for a read that is not empty. */
    method ReadLoop(d: Disk, count: nat, offset: nat) returns (n: int, data: seq<byte>)
      requires d.Valid() && WellFormed(d.fat, d.chains) && Direct(d) && Remembers(d) && count > 0 && offset < fileSize
      modifies this`currentCluster, this`currentClusterIdx, this`lastOffset, d`ioFaults
      ensures d.Valid() && Direct(d) && Remembers(d)
      ensures n == if data == [] && d.ioFaults < old(d.ioFaults) then -1 else |data|
      ensures if d.ioFaults == old(d.ioFaults) then n == ReadLength(fileSize, offset, count)
              else d.ioFaults == old(d.ioFaults) - 1 && |data| < ReadLength(fileSize, offset, count)
      ensures BytesFrom(d.clusters, d.chains[id], d.geo.sectorsPerCluster, old(StartIndex(offset)), offset, data)
      ensures lastOffset == offset + |data|
      ensures data != [] && d.ioFaults == old(d.ioFaults) ==>
                currentClusterIdx == ReadIndex(old(StartIndex(offset)), offset + |data| - 1, d.geo.sectorsPerCluster)
      ensures d.ioFaults < old(d.ioFaults) ==>
                d.geo.sectorsPerCluster > 0 && currentClusterIdx == ReadIndex(old(StartIndex(offset)), offset + |data|, d.geo.sectorsPerCluster)
      ensures d.geo.sectorsPerCluster > 0 && old(ReadPosition(d.geo.sectorsPerCluster)) ==> ReadPosition(d.geo.sectorsPerCluster)
    {
      hide FatsHold, DataImage, WellFormed, Direct, Reading, ByteFrom, Quot, Rem, Times, BytesFrom, ReadIndex;
      data := [];
      var remaining: nat := if offset + count > fileSize then fileSize - offset else count;
      var cluster: nat, clusterIndex: nat := StartReading(d, offset);
      ghost var si: nat, spc := clusterIndex, d.geo.sectorsPerCluster;
      ReadingShape(d, cluster, clusterIndex, si, offset, data);
      while remaining > 0 && cluster < END_MARK
        invariant d.ioFaults == old(d.ioFaults) && |data| + remaining == ReadLength(fileSize, offset, count)
        invariant Reading(d, cluster, clusterIndex, si, offset, data) && cluster < END_MARK
        decreases remaining
      {
        var err, piece;
        ReadingShape(d, cluster, clusterIndex, si, offset, data);
        err, cluster, clusterIndex, piece := ReadNext(d, cluster, clusterIndex, remaining, offset, data, si);
        if err {
          LeaveAt(d, cluster, clusterIndex, si, offset, offset + |data|, offset + |data|);
          return if |data| > 0 then |data| else -1, data;
        }
        ReadingShape(d, cluster, clusterIndex, si, offset, data + piece);
        data := data + piece;
        remaining := remaining - |piece|;
      }
      n := |data|;
      ReadingShape(d, cluster, clusterIndex, si, offset, data);
      LeaveAt(d, cluster, clusterIndex, si, offset, offset + n - 1, offset + n);
    }

    /** The remembered write position is on the chain, or there is none. */
    ghost predicate WriteCursor(d: Disk)
      reads this`writeCluster, this`writeIdx, this`sectorInCluster, d`chains
    {
      writeCluster != 0 ==>
        && id in d.chains && writeIdx < |d.chains[id]| && d.chains[id][writeIdx] == writeCluster
        && sectorInCluster <= d.geo.sectorsPerCluster
    }

    /** True when a direct write at offset goes on where the last call ended. */
    predicate Resumes(offset: nat)
      reads this`lastOffset, this`writeCluster
    {
      offset == lastOffset && lastOffset > 0 && writeCluster != 0
    }

    /** The sector of the file in which a direct write at offset begins, on a chain of n clusters. */
    ghost function StartSector(n: nat, spc: nat, offset: nat): nat
      reads this`lastOffset, this`writeCluster, this`writeIdx, this`sectorInCluster
    {
      if Resumes(offset) then Times(writeIdx, spc) + sectorInCluster else WalkSector(n, spc, offset)
    }

    /** Resolving the starting cluster of a direct write: the remembered one, or a walk from the first. */
    method ResolveStart(d: Disk, offset: nat) returns (cluster: nat, sec: nat, ghost idx: nat)
      requires d.Valid() && WellFormed(d.fat, d.chains) && Direct(d) && WriteCursor(d)
      ensures idx < |d.chains[id]| && cluster == d.chains[id][idx] && sec <= d.geo.sectorsPerCluster
      ensures Times(idx, d.geo.sectorsPerCluster) + sec == StartSector(|d.chains[id]|, d.geo.sectorsPerCluster, offset)
    {
      if offset == lastOffset && lastOffset > 0 && writeCluster != 0 {
        return writeCluster, sectorInCluster, writeIdx;
      }
      var spc := d.geo.sectorsPerCluster;
      var clusterSize := spc * 512;
      OffsetPlace(offset, spc);
      QuotBound(offset / 512, |d.chains[id]|, spc);
      QuotRem(offset / 512, spc);
      var clusterIndex := Quot(offset, clusterSize);
      ghost var ch := d.chains[id];
      cluster := firstCluster;
      var chainLen := 0;
      while chainLen < clusterIndex
        invariant chainLen <= clusterIndex && chainLen < |ch| && cluster == ch[chainLen]
      {
        var next := d.ChainedCluster(cluster);
        assert chainLen < |ch| - 1 ==> d.fat[ch[chainLen]] == ch[chainLen + 1];
        if next == 0 || next >= END_MARK {
          break;
        }
        cluster := next;
        chainLen := chainLen + 1;
      }
      idx := chainLen;
      // when the chain is too short, the write loop is made to extend it
      sec := if chainLen < clusterIndex then spc else Rem(offset, clusterSize) / 512;
    }

    /**
     * The allocation of a direct write past the end of its chain.  Only the first
     * batch size is ever linked: when no run of that size is found, either nothing
     * is free or the search for it has not come to an end.
     */
    method Extend(d: Disk, cluster: nat, remaining: nat) returns (st: Status, next: nat)
      requires d.Valid() && WellFormed(d.fat, d.chains) && id in d.chains && d.fatFaults == 0 && remaining > 0
      requires cluster == d.chains[id][|d.chains[id]| - 1]
      modifies d`sectors, d`fat, d`fatFaults, d`chains
      ensures d.Valid() && WellFormed(d.fat, d.chains) && d.fatFaults == 0 && d.geo.sectorsPerCluster > 0
      ensures st == SearchEnds(old(d.fat), FirstBatch(remaining, d.geo.sectorsPerCluster))
      ensures old(EntryPlaced(d)) ==> EntryPlaced(d)
      ensures !st.Done? ==> d.fat == old(d.fat) && d.chains == old(d.chains)
      ensures st.Done? ==>
                var n := FirstBatch(remaining, d.geo.sectorsPerCluster);
                && LinkedBehind(old(d.fat), old(d.chains), d.fat, d.chains, id, next, n)
                && VR.Became(VR.Tables(old(d.fat), old(d.chains)), VR.Extend(id, next, n), VR.Tables(d.fat, d.chains))
                && forall s :: 0 <= s < next ==> !RunAt(old(d.fat), s, n)
    {
      hide FatsHold, DataImage, Quot, Rem, Times, IsChain, Disjoint, Covered, VR.Became, EntryPlaced;
      DiskShape(d);
      OwnChain(d.fat, d.chains, id);
      var clusterSize := d.geo.sectorsPerCluster * 512;
      var remainingClusters := Quot(remaining + clusterSize - 1, clusterSize) + 1;
      ClustersNeeded(remaining, d.geo.sectorsPerCluster);
      var tryBatch := StartBatch(remainingClusters);
      next := 0;
      while tryBatch >= 2
        invariant d.Valid() && d.fatFaults == 0 && d.fat == old(d.fat) && d.chains == old(d.chains)
        invariant tryBatch == FirstBatch(remaining, d.geo.sectorsPerCluster) || NoneFree(d.fat)
      {
        var found := FindContiguousClusters(d, tryBatch);
        if found.Endless? {
          return Hung, next;
        }
        if found.Found? {
          RunMeansFree(d.fat, found.start, tryBatch);
          LinkRunBehind(d, cluster, found.start, tryBatch);
          return Done, found.start;
        }
        tryBatch := tryBatch / 2;
      }
      NoneFreeMeansNoRun(d.fat, FirstBatch(remaining, d.geo.sectorsPerCluster));
      st, next := SingleCluster(d, cluster);
    }

    /** The fallback of the allocation: one free cluster, wherever it lies. */
    method SingleCluster(d: Disk, cluster: nat) returns (st: Status, next: nat)
      requires d.Valid() && WellFormed(d.fat, d.chains) && id in d.chains && d.fatFaults == 0
      requires cluster == d.chains[id][|d.chains[id]| - 1]
      modifies d`sectors, d`fat, d`fatFaults, d`chains
      ensures d.Valid() && WellFormed(d.fat, d.chains) && d.fatFaults == 0
      ensures st == if NoneFree(old(d.fat)) then Failed else Done
      ensures old(EntryPlaced(d)) ==> EntryPlaced(d)
      ensures !st.Done? ==> d.fat == old(d.fat) && d.chains == old(d.chains)
      ensures st.Done? ==> LinkedBehind(old(d.fat), old(d.chains), d.fat, d.chains, id, next, 1)
    {
      hide FatsHold, DataImage, Quot, Rem, Times, IsChain, Disjoint, Covered, VR.Became, EntryPlaced;
      OwnChain(d.fat, d.chains, id);
      assert cluster in d.chains[id] && cluster < |d.fat|;
      next := FindFreeCluster(d, cluster);
      if next == 0 {
        return Failed, next;
      }
      LinkRunBehind(d, cluster, next, 1);
      st := Done;
    }

    /** The found run becomes the end of the chain. */
    method LinkRunBehind(d: Disk, cluster: nat, start: nat, n: nat)
      requires d.Valid() && WellFormed(d.fat, d.chains) && id in d.chains && d.fatFaults == 0 && n > 0
      requires cluster == d.chains[id][|d.chains[id]| - 1] && RunAt(d.fat, start, n)
      modifies d`sectors, d`fat, d`fatFaults, d`chains
      ensures d.Valid() && WellFormed(d.fat, d.chains) && d.fatFaults == 0
      ensures old(EntryPlaced(d)) ==> EntryPlaced(d)
      ensures LinkedBehind(old(d.fat), old(d.chains), d.fat, d.chains, id, start, n)
      ensures VR.Became(VR.Tables(old(d.fat), old(d.chains)), VR.Extend(id, start, n), VR.Tables(d.fat, d.chains))
    {
      Extended(d.fat, d.chains, id, start, n);
      assert cluster in d.chains[id];
      Others(d.fat, d.chains, start, n);
      LinkBehind(d, cluster, start, n);
      d.chains := d.chains[id := d.chains[id] + Run(start, n)];
    }

    /** Going on to the next cluster of the chain, which is extended when it ends here. */
    method Advance(d: Disk, cluster: nat, ghost idx: nat, remaining: nat) returns (st: Status, next: nat)
      requires d.Valid() && WellFormed(d.fat, d.chains) && id in d.chains && d.fatFaults == 0 && remaining > 0
      requires idx < |d.chains[id]| && cluster == d.chains[id][idx]
      modifies d`sectors, d`fat, d`fatFaults, d`chains
      ensures d.Valid() && WellFormed(d.fat, d.chains) && d.fatFaults == 0 && d.geo.sectorsPerCluster > 0
      ensures old(EntryPlaced(d)) ==> EntryPlaced(d)
      ensures (d.chains == old(d.chains) && d.fat == old(d.fat)) || exists s, n :: LinkedBehind(old(d.fat), old(d.chains), d.fat, d.chains, id, s, n)
      ensures id in old(d.chains)
      ensures st == if idx + 1 < |old(d.chains)[id]| then Done else SearchEnds(old(d.fat), FirstBatch(remaining, d.geo.sectorsPerCluster))
      ensures !st.Done? || idx + 1 < |old(d.chains)[id]| ==> d.fat == old(d.fat) && d.chains == old(d.chains)
      ensures id in d.chains && old(d.chains)[id] <= d.chains[id]
      ensures st.Done? ==> idx + 1 < |d.chains[id]| && next == d.chains[id][idx + 1]
      ensures st.Done? && idx + 1 == |old(d.chains)[id]| ==>
                LinkedLowest(old(d.fat), old(d.chains), d.fat, d.chains, id, FirstBatch(remaining, d.geo.sectorsPerCluster))
    {
      hide FatsHold, DataImage, Disjoint, Covered, EntryPlaced, FirstBatch, SearchEnds;
      ghost var ch := d.chains[id];
      DiskShape(d);
      next := d.ChainedCluster(cluster);
      assert idx < |ch| - 1 ==> d.fat[ch[idx]] == ch[idx + 1];
      st := Done;
      if next == 0 || next >= END_MARK {
        st, next := Extend(d, cluster, remaining);
      }
    }

    /** One turn of the write loop: a full sector goes out directly, a partial one by read and write. */
    method WritePiece(d: Disk, cluster: nat, sec: nat, offsetInSector: nat, piece: seq<byte>) returns (err: bool)
      requires d.Valid() && 2 <= cluster < |d.fat| && sec < d.geo.sectorsPerCluster && offsetInSector + |piece| <= 512
      modifies d`sectors, d`clusters, d`ioFaults
      ensures d.Valid() && |old(d.clusters)[cluster]| == d.geo.sectorsPerCluster
      ensures !err ==> d.ioFaults == old(d.ioFaults)
      ensures !err ==> d.clusters == Stored(old(d.clusters), cluster, sec, Patched(old(d.clusters)[cluster][sec], offsetInSector, piece))
      ensures err ==> d.ioFaults < old(d.ioFaults) && d.clusters == old(d.clusters)
    {
      var sectorNumber := d.geo.SectorOf(cluster, sec);
      var sectorBuffer := ZeroSector();
      if |piece| < 512 || offsetInSector != 0 {
        err, sectorBuffer := d.ReadSector(sectorNumber, cluster, sec);
        if err {
          return;
        }
      }
      assert Patched(sectorBuffer, offsetInSector, piece) == Patched(d.clusters[cluster][sec], offsetInSector, piece);
      err := d.WriteSector(sectorNumber, cluster, sec, Patched(sectorBuffer, offsetInSector, piece));
    }

    /** A direct write that began in state w has put data and stands at sector sec of cluster idx of the chain. */
    ghost predicate Writing(d: Disk, w: WriteStart, data: seq<byte>, cluster: nat, sec: nat, idx: nat)
      reads d`sectors, d`fat, d`clusters, d`chains, d`fatFaults
    {
      && d.Valid() && WellFormed(d.fat, d.chains) && d.fatFaults == 0 && EntryPlaced(d)
      && Progress(id, d.geo.sectorsPerCluster, w.fat, w.chains, w.clusters, d.fat, d.chains, d.clusters, w.at, data)
      && idx < |d.chains[id]| && cluster == d.chains[id][idx] && sec <= d.geo.sectorsPerCluster
    }

    /** The head of the write loop: at the end of a cluster go on to the next one. */
    method EnterSector(d: Disk, cluster0: nat, sec0: nat, ghost idx0: nat, remaining: nat, ghost w: WriteStart, ghost data: seq<byte>)
      returns (st: Status, cluster: nat, sec: nat, ghost idx: nat)
      requires Writing(d, w, data, cluster0, sec0, idx0) && remaining > 0
      modifies d`sectors, d`fat, d`fatFaults, d`chains
      ensures Writing(d, w, data, cluster, sec, idx)
      ensures Times(idx, d.geo.sectorsPerCluster) + sec == Times(idx0, d.geo.sectorsPerCluster) + sec0
      ensures st.Done? ==> sec < d.geo.sectorsPerCluster
      ensures !st.Done? ==> d.geo.sectorsPerCluster > 0 && st == SearchEnds(d.fat, FirstBatch(remaining, d.geo.sectorsPerCluster))
      ensures id in old(d.chains) && (sec0 < d.geo.sectorsPerCluster || idx0 + 1 < |old(d.chains)[id]| ==>
                                        st.Done? && d.fat == old(d.fat) && d.chains == old(d.chains))
      ensures !st.Done? ==> d.fat == old(d.fat) && d.chains == old(d.chains)
      ensures d.geo.sectorsPerCluster > 0 && (sec0 == d.geo.sectorsPerCluster && idx0 + 1 == |old(d.chains)[id]| ==>
                var n := FirstBatch(remaining, d.geo.sectorsPerCluster);
                st == SearchEnds(old(d.fat), n) && (st.Done? ==> LinkedLowest(old(d.fat), old(d.chains), d.fat, d.chains, id, n)))
    {
      hide WellFormed, IsChain, Progress, FatsHold, DataImage, EntryPlaced, FirstBatch, SearchEnds, LinkedBehind, LinkedLowest;
      ProgressShape(id, d.geo.sectorsPerCluster, w, d.fat, d.chains, d.clusters, data);
      DiskShape(d);
      st, cluster, sec, idx := Done, cluster0, sec0, idx0;
      if sec >= d.geo.sectorsPerCluster {
        ghost var fat, chains := d.fat, d.chains;
        var next;
        st, next := Advance(d, cluster, idx, remaining);
        if !(d.fat == fat && d.chains == chains) {
          ghost var start, n :| LinkedBehind(fat, chains, d.fat, d.chains, id, start, n);
          ProgressLinked(id, d.geo.sectorsPerCluster, w.fat, w.chains, w.clusters, fat, chains, d.clusters, w.at, data, d.fat, d.chains, start, n);
        }
        if st.Done? {
          cluster, sec, idx := next, 0, idx + 1;
        }
      }
    }

    /** The body of the write loop adds the next piece to what has been written so far. */
    method WriteNext(d: Disk, cluster: nat, sec: nat, ghost idx: nat, buf: seq<byte>, offset: nat, total: nat, ghost w: WriteStart)
      returns (err: bool, n: nat)
      requires total < |buf| && Writing(d, w, buf[..total], cluster, sec, idx) && sec < d.geo.sectorsPerCluster
      requires FloorSector(w.at + total) == Times(idx, d.geo.sectorsPerCluster) + sec && w.at % 512 == offset % 512
      modifies d`sectors, d`clusters, d`ioFaults
      ensures if err then d.ioFaults < old(d.ioFaults) && Writing(d, w, buf[..total], cluster, sec, idx)
              else d.ioFaults == old(d.ioFaults) && 0 < n <= |buf| - total && Writing(d, w, buf[..total + n], cluster, sec + 1, idx)
      ensures !err ==> CeilSectors(w.at + (total + n)) == FloorSector(w.at + total) + 1
      ensures !err && total + n < |buf| ==> FloorSector(w.at + (total + n)) == FloorSector(w.at + total) + 1
    {
      hide FatsHold, EntryPlaced, Disjoint, Covered, AllChains, Spliced, Grown, Holds, Patched, Quot, Rem, Times;
      OwnChain(d.fat, d.chains, id);
      DiskShape(d);
      SameOffset(w.at, offset, total);
      var offsetInSector := (offset + total) % 512;
      n := Least(512 - offsetInSector, |buf| - total);
      NextPiece(w.at + total, |buf| - total, n);
      ghost var piece := buf[total..total + n];
      ProgressStored(id, d.geo.sectorsPerCluster, w.fat, w.chains, w.clusters, d.fat, d.chains, d.clusters, w.at, buf[..total], idx, sec, piece);
      assert cluster in d.chains[id] && buf[..total] + piece == buf[..total + n];
      err := WritePiece(d, cluster, sec, offsetInSector, buf[total..total + n]);
    }

    /**
     * The write loop of m65ftp_pwrite from a resolved place.  It ends when all is
     * written, when the disk is full, at an error, or in an endless search.
     */
    method WriteLoop(d: Disk, cluster0: nat, sec0: nat, ghost idx0: nat, buf: seq<byte>, offset: nat, ghost w: WriteStart)
      returns (st: Status, total: nat, cluster: nat, sec: nat, ghost idx: nat)
      requires Writing(d, w, [], cluster0, sec0, idx0)
      requires w.at == (Times(idx0, d.geo.sectorsPerCluster) + sec0) * 512 + offset % 512
      requires id in w.chains && d.fat == w.fat && d.chains == w.chains && d.geo.sectorsPerCluster > 0
      modifies d`sectors, d`fat, d`clusters, d`chains, d`fatFaults, d`ioFaults
      ensures total <= |buf| && Writing(d, w, buf[..total], cluster, sec, idx)
      ensures st.Done? ==> total == |buf|
      ensures d.ioFaults <= old(d.ioFaults)
      ensures !st.Done? ==> total < |buf|
      ensures !st.Done? && !(st.Failed? && d.ioFaults < old(d.ioFaults)) ==>
                SearchEnds(d.fat, FirstBatch(|buf| - total, d.geo.sectorsPerCluster)) == st
      ensures FitsChain(w.at, |buf|, |w.chains[id]|, d.geo.sectorsPerCluster) ==>
                d.fat == w.fat && d.chains == w.chains && (st.Done? || (st.Failed? && d.ioFaults < old(d.ioFaults)))
      ensures GrewTo(VR.Tables(w.fat, w.chains), VR.Tables(d.fat, d.chains), id, w.at, |buf|, d.geo.sectorsPerCluster)
      ensures d.ioFaults == old(d.ioFaults) ==> LoopEnds(VR.Tables(d.fat, d.chains), id, w.at, |buf|, d.geo.sectorsPerCluster, st, total)
      ensures total > 0 ==> Times(idx, d.geo.sectorsPerCluster) + sec == CeilSectors(w.at + total)
    {
      hide *;
      st, total, cluster, sec, idx := Done, 0, cluster0, sec0, idx0;
      ghost var spc := d.geo.sectorsPerCluster;
      ghost var was := VR.Tables(w.fat, w.chains);
      FirstSector(Times(idx, spc) + sec, offset);
      StartInside(d, w, cluster, sec, idx, offset);
      GrewItself(was, id, w.at, |buf|, spc);
      assert buf[..0] == [];
      while total < |buf|
        invariant total <= |buf| && st.Done? && d.ioFaults == old(d.ioFaults)
        invariant Writing(d, w, buf[..total], cluster, sec, idx)
        invariant total < |buf| ==> Times(idx, spc) + sec == FloorSector(w.at + total)
        invariant total > 0 ==> Times(idx, spc) + sec == CeilSectors(w.at + total)
        invariant GrewTo(was, VR.Tables(d.fat, d.chains), id, w.at, |buf|, spc)
      {
        WritingShape(d, w, buf[..total], cluster, sec, idx);
        ghost var before, idx0, sec0 := VR.Tables(d.fat, d.chains), idx, sec;
        st, cluster, sec, idx := EnterSector(d, cluster, sec, idx, |buf| - total, w, buf[..total]);
        TurnGrows(was, before, VR.Tables(d.fat, d.chains), id, w.at, |buf|, total, spc, idx0, sec0, st);
        if !st.Done? {
          break;
        }
        var err, n := WriteNext(d, cluster, sec, idx, buf, offset, total, w);
        if err {
          st := Failed;
          break;
        }
        total := total + n;
        sec := sec + 1;
      }
      WritingShape(d, w, buf[..total], cluster, sec, idx);
      if st.Done? {
        EndFits(VR.Tables(d.fat, d.chains), id, w.at, |buf|, spc, idx, sec);
      }
      if FitsChain(w.at, |buf|, |w.chains[id]|, spc) {
        GrowthFits(was, VR.Tables(d.fat, d.chains), id, w.at, |buf|, spc);
        FitsEnds(was, id, w.at, |buf|, spc);
      }
    }

    lemma StartInside(d: Disk, w: WriteStart, cluster: nat, sec: nat, idx: nat, offset: nat)
      requires Writing(d, w, [], cluster, sec, idx) && id in w.chains && d.chains == w.chains
      requires w.at == (Times(idx, d.geo.sectorsPerCluster) + sec) * 512 + offset % 512
      ensures w.at < Times(|w.chains[id]|, d.geo.sectorsPerCluster) * 512 + 512
    {
      hide FatsHold, DataImage, WellFormed, Progress, EntryPlaced;
      TimesNext(idx, d.geo.sectorsPerCluster);
      TimesMono(idx + 1, |w.chains[id]|, d.geo.sectorsPerCluster);
    }

    lemma WritingShape(d: Disk, w: WriteStart, data: seq<byte>, cluster: nat, sec: nat, idx: nat)
      requires Writing(d, w, data, cluster, sec, idx)
      ensures id in d.chains && idx < |d.chains[id]| && sec <= d.geo.sectorsPerCluster
    {
    }

    /** set_entry_file_size on the cached entry, and its sector written. */
    method SaveSize(d: Disk, size: nat)
      requires d.Valid() && EntryPlaced(d) && size < 0x1_0000_0000
      modifies this`dirSectorBuf, d`sectors, d`clusters, d`ioFaults
      ensures d.Valid() && OnlyChanged(old(d.clusters), d.clusters, []) && d.ioFaults <= old(d.ioFaults)
      ensures HasEntry() ==> SameButFields(old(dirSectorBuf), dirSectorBuf, dirSectorOffset)
      ensures HasEntry() ==> EntryCluster(dirSectorBuf, dirSectorOffset) == EntryCluster(old(dirSectorBuf), dirSectorOffset)
                             && EntrySize(dirSectorBuf, dirSectorOffset) == size
      ensures HasEntry() && d.ioFaults == old(d.ioFaults) ==> EntryOnDisk(d.clusters)
    {
      if dirSector >= 0 && dirSectorOffset >= 0 {
        dirSectorBuf := WithFileSize(dirSectorBuf, dirSectorOffset, size);
        WriteEntry(d);
      }
    }

    /** The end of m65ftp_pwrite: the write position, the size, and the directory entry. */
    method FinishWrite(d: Disk, cluster: nat, sec: nat, ghost idx: nat, offset: nat, total: nat)
      requires d.Valid() && EntryPlaced(d) && EntryAgrees() && offset + total < 0x1_0000_0000 && fileSize < 0x1_0000_0000
      modifies this`writeCluster, this`writeIdx, this`sectorInCluster, this`lastOffset, this`fileSize, this`dirSectorBuf
      modifies d`sectors, d`clusters, d`ioFaults
      ensures d.Valid() && OnlyChanged(old(d.clusters), d.clusters, []) && d.ioFaults <= old(d.ioFaults) && EntryAgrees()
      ensures writeCluster == cluster && sectorInCluster == sec && writeIdx == idx && lastOffset == offset + total
      ensures fileSize == MaxOf(old(fileSize), offset + total)
      ensures HasEntry() ==> SameButFields(old(dirSectorBuf), dirSectorBuf, dirSectorOffset)
      ensures HasEntry() && d.ioFaults == old(d.ioFaults) ==> EntryOnDisk(d.clusters)
    {
      writeCluster, sectorInCluster, writeIdx, lastOffset := cluster, sec, idx, offset + total;
      if offset + total > fileSize {
        fileSize := offset + total;
      }
      SaveSize(d, fileSize);
    }

    /** The byte position at which a direct write at offset puts its data. */
    ghost function WritePosition(n: nat, spc: nat, offset: nat): nat
      reads this`lastOffset, this`writeCluster, this`writeIdx, this`sectorInCluster
    {
      StartSector(n, spc, offset) * 512 + offset % 512
    }

    /**
     * m65ftp_pwrite on the chain.  The data goes to WritePosition, which is the
     * offset exactly when WritesAtOffsetExactly says so.  The chain grows by free
     * clusters only, and every other file keeps its bytes and its chain.
     */
    method PwriteDirect(d: Disk, buf: seq<byte>, offset: nat) returns (st: Status, written: nat)
      requires d.Valid() && WellFormed(d.fat, d.chains) && d.fatFaults == 0
      requires Direct(d) && WriteCursor(d) && buf != [] && offset + |buf| < 0x1_0000_0000 && fileSize < 0x1_0000_0000
      modifies this`writeCluster, this`writeIdx, this`sectorInCluster, this`lastOffset, this`fileSize, this`dirSectorBuf
      modifies d`sectors, d`fat, d`clusters, d`chains, d`fatFaults, d`ioFaults
      ensures d.Valid() && WellFormed(d.fat, d.chains) && d.fatFaults == 0 && EntryPlaced(d) && EntryAgrees()
      ensures id in d.chains && d.chains == old(d.chains)[id := d.chains[id]] && written <= |buf|
      ensures Grown(old(d.fat), old(d.chains)[id], d.fat, d.chains[id])
      ensures VR.Reaches(VR.Tables(old(d.fat), old(d.chains)), VR.Tables(d.fat, d.chains), {id})
      ensures d.ioFaults <= old(d.ioFaults)
      ensures Spliced(old(d.clusters), old(d.chains)[id], d.clusters, d.chains[id], d.geo.sectorsPerCluster,
                      old(WritePosition(|d.chains[id]|, d.geo.sectorsPerCluster, offset)), buf[..written])
      ensures OnlyChanged(old(d.clusters), d.clusters, d.chains[id])
      ensures st.Done? ==> 0 < written && lastOffset == offset + written && fileSize == MaxOf(old(fileSize), offset + written) && WriteCursor(d)
      ensures st.Done? ==> writeCluster != 0 && Times(writeIdx, d.geo.sectorsPerCluster) + sectorInCluster
                             == CeilSectors(old(WritePosition(|d.chains[id]|, d.geo.sectorsPerCluster, offset)) + written)
      ensures st.Done? && HasEntry() && d.ioFaults == old(d.ioFaults) ==> EntryOnDisk(d.clusters)
      ensures st.Failed? ==> written == 0
      ensures d.geo.sectorsPerCluster > 0 && (st.Hung? ==>
                written < |buf| && !NoneFree(d.fat) && !SomeRun(d.fat, FirstBatch(|buf| - written, d.geo.sectorsPerCluster)))
      ensures !st.Hung? && written < |buf| ==> NoneFree(d.fat) || d.ioFaults < old(d.ioFaults)
      ensures FitsChain(old(WritePosition(|d.chains[id]|, d.geo.sectorsPerCluster, offset)), |buf|, |old(d.chains)[id]|, d.geo.sectorsPerCluster) ==>
                d.fat == old(d.fat) && d.chains == old(d.chains) && !st.Hung?
                && (d.ioFaults == old(d.ioFaults) ==> st.Done? && written == |buf|)
      ensures GrewTo(VR.Tables(old(d.fat), old(d.chains)), VR.Tables(d.fat, d.chains), id,
                     old(WritePosition(|d.chains[id]|, d.geo.sectorsPerCluster, offset)), |buf|, d.geo.sectorsPerCluster)
      ensures d.ioFaults == old(d.ioFaults) ==>
                WriteEnds(VR.Tables(d.fat, d.chains), id, old(WritePosition(|d.chains[id]|, d.geo.sectorsPerCluster, offset)), |buf|, d.geo.sectorsPerCluster, st, written)
      ensures !st.Done? ==> unchanged(this)
      ensures !st.Done? ==> |d.clusters| == |old(d.clusters)| && forall c :: 0 <= c < |d.clusters| && c !in d.chains[id] ==> d.clusters[c] == old(d.clusters)[c]
      ensures HasEntry() ==> SameButFields(old(dirSectorBuf), dirSectorBuf, dirSectorOffset)
    {
      hide FatsHold, DataImage, Disjoint, Covered, AllChains, Spliced, Grown, VR.Reaches, FirstBatch, FitsChain, Times, Holds;
      DiskShape(d);
      OwnChain(d.fat, d.chains, id);
      var cluster, sec;
      ghost var idx, w;
      cluster, sec, idx := ResolveStart(d, offset);
      w := WriteStart(d.fat, d.chains, d.clusters, WritePosition(|d.chains[id]|, d.geo.sectorsPerCluster, offset));
      ProgressFirst(id, d.geo.sectorsPerCluster, d.fat, d.chains, d.clusters, w.at);
      st, written, cluster, sec, idx := WriteLoop(d, cluster, sec, idx, buf, offset, w);
      if d.ioFaults == old(d.ioFaults) {
        CallEnds(VR.Tables(d.fat, d.chains), id, w.at, |buf|, d.geo.sectorsPerCluster, st, written);
      }
      if st.Hung? || (st.Failed? && written == 0) {
        return;
      }
      st := Done;
      EndWrite(d, cluster, sec, idx, offset, buf[..written], w);
    }

    /** The end of m65ftp_pwrite, for what has been written. */
    method EndWrite(d: Disk, cluster: nat, sec: nat, ghost idx: nat, offset: nat, data: seq<byte>, ghost w: WriteStart)
      requires Writing(d, w, data, cluster, sec, idx) && EntryAgrees() && offset + |data| < 0x1_0000_0000 && fileSize < 0x1_0000_0000
      modifies this`writeCluster, this`writeIdx, this`sectorInCluster, this`lastOffset, this`fileSize, this`dirSectorBuf
      modifies d`sectors, d`clusters, d`ioFaults
      ensures d.Valid() && d.ioFaults <= old(d.ioFaults) && EntryAgrees() && EntryPlaced(d)
      ensures id in w.chains && id in d.chains && Spliced(w.clusters, w.chains[id], d.clusters, d.chains[id], d.geo.sectorsPerCluster, w.at, data)
      ensures OnlyChanged(w.clusters, d.clusters, d.chains[id])
      ensures cluster != 0 && writeCluster == cluster && sectorInCluster == sec && writeIdx == idx && lastOffset == offset + |data|
      ensures WriteCursor(d) && fileSize == MaxOf(old(fileSize), offset + |data|)
      ensures HasEntry() ==> SameButFields(old(dirSectorBuf), dirSectorBuf, dirSectorOffset)
      ensures HasEntry() && d.ioFaults == old(d.ioFaults) ==> EntryOnDisk(d.clusters)
    {
      hide FatsHold, DataImage, Disjoint, Covered, AllChains, Spliced, Grown, VR.Reaches, Times, EntryAgrees, EntryOnDisk;
      OwnChain(d.fat, d.chains, id);
      ghost var cl := d.clusters;
      assert cluster in d.chains[id] && cluster >= 2;
      FinishWrite(d, cluster, sec, idx, offset, |data|);
      assert forall c :: c in d.chains[id] && c < |cl| ==> d.clusters[c] == cl[c];
      SplicedFrame(w.clusters, w.chains[id], cl, d.chains[id], d.geo.sectorsPerCluster, w.at, data, d.clusters);
    }

    /**
     * The growing branch of m65ftp_ftruncate before the swap: a new block, checked
     * step by step, and a copy of the data.  A failure rolls the block back.
     */
    method CopyToBlock(d: Disk, start: nat, needed: nat, copySize: nat) returns (failed: bool)
      requires d.Valid() && WellFormed(d.fat, d.chains) && Direct(d) && |d.chains[id]| < needed && RunAt(d.fat, start, needed)
      requires copySize == fileSize
      modifies d`sectors, d`fat, d`clusters, d`fatFaults, d`ioFaults
      ensures d.Valid() && d.fatFaults <= old(d.fatFaults) && d.ioFaults <= old(d.ioFaults)
      ensures failed ==> UsedKept(old(d.fat), old(d.clusters), d.fat, d.clusters)
      ensures failed && OneFault(old(d.fatFaults), old(d.ioFaults)) ==> d.fat == old(d.fat)
      ensures failed ==> d.fatFaults < old(d.fatFaults) || d.ioFaults < old(d.ioFaults)
      ensures failed ==> AllOrLeaked(old(d.fat), d.fat, d.chains)
      ensures !failed ==> d.fat == LinkRun(old(d.fat), start, needed) && d.ioFaults == old(d.ioFaults)
      ensures !failed ==> SameOutside(old(d.clusters), d.clusters, start, needed)
      ensures !failed ==> SameContent(old(d.clusters), d.chains[id], d.clusters, Run(start, needed), d.geo.sectorsPerCluster, fileSize)
      ensures !failed ==> Copied(old(d.clusters), d.chains[id], d.clusters, Run(start, needed), d.geo.sectorsPerCluster, CeilSectors(fileSize))
    {
      hide FatsHold, DataImage, Disjoint, Covered, AllChains, Quot, Rem, Times;
      OwnChain(d.fat, d.chains, id);
      DiskShape(d);
      ghost var ch0 := d.chains[id];
      Others(d.fat, d.chains, start, needed);
      var growthFailed, count := LinkChecked(d, start, needed);
      if growthFailed {
        ghost var mid := d.fat;
        RollBack(d, start, count);
        RolledBack(old(d.fat), mid, d.fat, start, needed, count);
        LeftUsed(old(d.fat), d.chains, mid, d.fat, start, needed, count);
        return true;
      }
      ChainFrame(old(d.fat), d.fat, ch0);
      var err := CopyData(d, firstCluster, start, needed, copySize, ch0);
      if err {
        ghost var mid := d.fat;
        RollBack(d, start, needed);
        RolledBack(old(d.fat), mid, d.fat, start, needed, needed);
        LeftUsed(old(d.fat), d.chains, mid, d.fat, start, needed, needed);
        return true;
      }
      CopiedBytes(old(d.clusters), ch0, d.clusters, Run(start, needed), d.geo.sectorsPerCluster, copySize);
      failed := false;
    }

    /** The growing branch up to the directory entry: the old chain is freed only after everything has been copied. */
    method GrowFile(d: Disk, needed: nat, length: nat) returns (st: Status, start: nat)
      requires d.Valid() && WellFormed(d.fat, d.chains) && Direct(d) && |d.chains[id]| < needed
      requires fileSize <= length
      modifies d`sectors, d`fat, d`clusters, d`chains, d`fatFaults, d`ioFaults
      ensures d.Valid() && d.fatFaults <= old(d.fatFaults) && d.ioFaults <= old(d.ioFaults)
      ensures !st.Done? ==> d.chains == old(d.chains) && UsedKept(old(d.fat), old(d.clusters), d.fat, d.clusters)
      ensures !st.Done? && OneFault(old(d.fatFaults), old(d.ioFaults)) ==> d.fat == old(d.fat)
      ensures st.Done? && old(d.fatFaults) == 0 ==>
                SwappedTo(d, old(d.fat), old(d.chains), old(d.clusters), start, needed)
      ensures st.Done? ==> d.ioFaults == old(d.ioFaults) && start < END_MARK && EntryPlaced(d)
      ensures st.Done? ==> forall s :: 0 <= s < start ==> !RunAt(old(d.fat), s, needed)
      ensures SearchOrFault(old(d.fat), needed, st, d, old(d.fatFaults), old(d.ioFaults))
      ensures !st.Done? ==> AllOrLeaked(old(d.fat), d.fat, d.chains)
    {
      hide FatsHold, DataImage, WellFormed, RunAt, SwappedTo, AllOrLeaked, OneFault, IsChain, Times;
      GrowthStarts(d);
      start := 0;
      var found := FindContiguousClusters(d, needed);
      if found.Endless? {
        return Hung, start;
      } else if found.NothingFree? {
        NoneFreeMeansNoRun(d.fat, needed);
        return Failed, start;
      }
      start := found.start;
      RunMeansFree(d.fat, start, needed);
      var failed := MoveTo(d, start, needed, Least(fileSize, length));
      st := if failed then Failed else Done;
    }

    lemma GrowthStarts(d: Disk)
      requires d.Valid() && WellFormed(d.fat, d.chains)
      ensures 2 <= |d.fat| && d.fat[0] != 0 && AllOrLeaked(d.fat, d.fat, d.chains) && UsedKept(d.fat, d.clusters, d.fat, d.clusters)
    {
    }

    /** Once a run has been found: the data is copied to it, and then the old chain is freed. */
    method MoveTo(d: Disk, start: nat, needed: nat, copySize: nat) returns (failed: bool)
      requires d.Valid() && WellFormed(d.fat, d.chains) && Direct(d) && |d.chains[id]| < needed && RunAt(d.fat, start, needed)
      requires copySize == fileSize
      modifies d`sectors, d`fat, d`clusters, d`chains, d`fatFaults, d`ioFaults
      ensures d.Valid() && d.fatFaults <= old(d.fatFaults) && d.ioFaults <= old(d.ioFaults)
      ensures failed ==> d.chains == old(d.chains) && UsedKept(old(d.fat), old(d.clusters), d.fat, d.clusters)
      ensures failed && OneFault(old(d.fatFaults), old(d.ioFaults)) ==> d.fat == old(d.fat)
      ensures failed ==> (d.fatFaults < old(d.fatFaults) || d.ioFaults < old(d.ioFaults)) && AllOrLeaked(old(d.fat), d.fat, d.chains)
      ensures !failed && old(d.fatFaults) == 0 ==> SwappedTo(d, old(d.fat), old(d.chains), old(d.clusters), start, needed)
      ensures !failed ==> d.ioFaults == old(d.ioFaults) && start < END_MARK && EntryPlaced(d)
    {
      hide FatsHold, DataImage, Disjoint, Covered, AllChains, Quot, Rem, Times, SameContent, Copied, AllOrLeaked, EntryAgrees, UsedKept, OneFault;
      OwnChain(d.fat, d.chains, id);
      DiskShape(d);
      ghost var ch0 := d.chains[id];
      Others(d.fat, d.chains, start, needed);
      failed := CopyToBlock(d, start, needed, copySize);
      if failed {
        return;
      }
      ChainFrame(old(d.fat), d.fat, ch0);
      FreeChain(d, firstCluster, ch0);
      Replaced(old(d.fat), d.chains, id, start, needed);
      d.chains := d.chains[id := Run(start, needed)];
    }

    /** The file has moved to a new block and keeps its content; its old chain is free. */
    ghost predicate SwappedTo(d: Disk, fat: Fat, chains: map<int, seq<nat>>, cl: Clusters, start: nat, n: nat)
      reads this`fileSize, d`fat, d`chains, d`clusters
    {
      && id in chains && RunAt(fat, start, n) && n > |chains[id]|
      && d.fat == Freed(LinkRun(fat, start, n), chains[id])
      && d.chains == chains[id := Run(start, n)] && WellFormed(d.fat, d.chains)
      && VR.Became(VR.Tables(fat, chains), VR.Move(id, start, n), VR.Tables(d.fat, d.chains))
      && SameOutside(cl, d.clusters, start, n)
      && SameContent(cl, chains[id], d.clusters, Run(start, n), d.geo.sectorsPerCluster, fileSize)
      && Copied(cl, chains[id], d.clusters, Run(start, n), d.geo.sectorsPerCluster, CeilSectors(fileSize))
    }

    /** The shrinking branch: walk to the new last cluster, free everything behind it, and end the chain there. */
    method ShrinkFile(d: Disk, needed: nat)
      requires d.Valid() && WellFormed(d.fat, d.chains) && Direct(d) && 0 < needed < |d.chains[id]| && d.fatFaults == 0
      modifies d`sectors, d`fat, d`chains, d`fatFaults
      ensures d.Valid() && WellFormed(d.fat, d.chains) && d.fatFaults == 0
      ensures id in old(d.chains) && d.chains == old(d.chains)[id := old(d.chains)[id][..needed]]
      ensures FreeCount(d.fat) == FreeCount(old(d.fat)) + |old(d.chains)[id]| - needed
      ensures var ch := old(d.chains)[id]; ch[needed - 1] < |old(d.fat)| && d.fat == Freed(old(d.fat), ch[needed..])[ch[needed - 1] := END_MARK]
      ensures VR.Became(VR.Tables(old(d.fat), old(d.chains)), VR.Shrink(id, needed), VR.Tables(d.fat, d.chains))
    {
      hide FatsHold, DataImage, Disjoint, Covered, AllChains, Quot, Rem, Times, FreeCount, Holds, EntryPlaced, EntryAgrees;
      ghost var fat0: Fat, ch := d.fat, d.chains[id];
      var cluster := WalkToLast(d, firstCluster, needed, ch);
      var freeStart := d.ChainedCluster(cluster);
      assert d.fat[ch[needed - 1]] == ch[needed];
      ChainSuffix(d.fat, ch, needed);
      FreeChain(d, freeStart, ch[needed..]);
      var e := d.SetFatClusterPtr(cluster, END_MARK);
      CutBecomes(fat0, d.chains, id, needed);
      d.chains := d.chains[id := ch[..needed]];
    }

    /** The branch that frees everything. */
    method ReleaseFile(d: Disk)
      requires d.Valid() && WellFormed(d.fat, d.chains) && d.fatFaults == 0
      requires if id in d.chains then d.chains[id][0] == firstCluster else firstCluster == 0
      modifies d`sectors, d`fat, d`chains, d`fatFaults
      ensures d.Valid() && WellFormed(d.fat, d.chains) && d.fatFaults == 0 && d.chains == old(d.chains) - {id}
      ensures d.fat == Freed(old(d.fat), if id in old(d.chains) then old(d.chains)[id] else [])
      ensures FreeCount(d.fat) == FreeCount(old(d.fat)) + if id in old(d.chains) then |old(d.chains)[id]| else 0
      ensures if id in old(d.chains) then VR.Became(VR.Tables(old(d.fat), old(d.chains)), VR.Release(id), VR.Tables(d.fat, d.chains))
              else d.fat == old(d.fat) && d.chains == old(d.chains)
    {
      ghost var ch := if id in d.chains then d.chains[id] else [];
      FreeChain(d, firstCluster, ch);
      if id in d.chains {
        Released(old(d.fat), d.chains, id);
        ChainCount(old(d.fat), ch);
      } else {
        assert d.fat == old(d.fat) && d.chains - {id} == d.chains;
      }
      d.chains := d.chains - {id};
    }

    /** The end of m65ftp_ftruncate: the directory entry, and the positions back at the start. */
    method FinishTruncate(d: Disk, first: nat, length: nat, moved: bool)
      requires d.Valid() && EntryPlaced(d) && EntryAgrees() && first < 0x1_0000_0000 && length < 0x1_0000_0000
      requires moved || first == firstCluster
      modifies this`firstCluster, this`fileSize, this`currentCluster, this`currentClusterIdx, this`lastOffset, this`dirSectorBuf
      modifies this`writeCluster, this`sectorInCluster, this`writeIdx
      modifies d`sectors, d`clusters, d`ioFaults
      ensures d.Valid() && OnlyChanged(old(d.clusters), d.clusters, []) && d.ioFaults <= old(d.ioFaults)
      ensures EntryAgrees() && firstCluster == first && fileSize == length && buffered == old(buffered)
      ensures AtStart()
      ensures HasEntry() ==> SameButFields(old(dirSectorBuf), dirSectorBuf, dirSectorOffset)
      ensures HasEntry() && d.ioFaults == old(d.ioFaults) ==> EntryOnDisk(d.clusters)
    {
      if moved && dirSector >= 0 && dirSectorOffset >= 0 {
        dirSectorBuf := WithFirstCluster(dirSectorBuf, dirSectorOffset, first);
      }
      SaveSize(d, length);
      fileSize, firstCluster := length, first;
      writeCluster, writeIdx, sectorInCluster, lastOffset := first, 0, 0, 0;
      currentCluster, currentClusterIdx := first, 0;
    }

    /** A file opened for direct access: on a chain, or empty and without one. */
    ghost predicate OpenDirect(d: Disk)
      reads this`buffered, this`firstCluster, this`fileSize, this`dirSectorBuf, d`fat, d`chains, d`clusters
    {
      if id in d.chains then Direct(d) else !buffered && firstCluster == 0 && fileSize == 0 && EntryPlaced(d) && EntryAgrees()
    }

    /** How many clusters the file has. */
    ghost function ChainLength(chains: map<int, seq<nat>>): nat {
      if id in chains then |chains[id]| else 0
    }

    /** A successful truncation of the file to length. */
    ghost predicate Truncated(d: Disk, fat: Fat, chains: map<int, seq<nat>>, cl: Clusters, size: nat, length: nat)
      reads this`buffered, this`firstCluster, this`fileSize, this`dirSectorBuf, d`fat, d`chains, d`clusters
    {
      && d.geo.sectorsPerCluster > 0
      && OpenDirect(d) && WellFormed(d.fat, d.chains) && fileSize == length
      && ChainLength(d.chains) == ClustersFor(length, d.geo.sectorsPerCluster)
      && FreeCount(d.fat) + ChainLength(d.chains) == FreeCount(fat) + ChainLength(chains)
      && d.chains - {id} == chains - {id}
      && VR.Reaches(VR.Tables(fat, chains), VR.Tables(d.fat, d.chains), {id})
      && (length > 0 ==> id in chains && id in d.chains)
      && (length > 0 ==> SameContent(cl, chains[id], d.clusters, d.chains[id], d.geo.sectorsPerCluster, Least(size, length)))
      && OnlyChanged(cl, d.clusters, if id in d.chains then d.chains[id] else [])
    }

    /** Truncation to zero: the chain is freed, the entry cleared. */
    method TruncateToZero(d: Disk)
      requires d.Valid() && WellFormed(d.fat, d.chains) && OpenDirect(d) && d.fatFaults == 0
      modifies this`firstCluster, this`fileSize, this`currentCluster, this`currentClusterIdx, this`lastOffset, this`dirSectorBuf
      modifies this`writeCluster, this`sectorInCluster, this`writeIdx
      modifies d`sectors, d`fat, d`clusters, d`chains, d`fatFaults, d`ioFaults
      ensures d.Valid() && Truncated(d, old(d.fat), old(d.chains), old(d.clusters), old(fileSize), 0)
      ensures AtStart() && d.fatFaults == 0 && d.ioFaults <= old(d.ioFaults)
      ensures HasEntry() && d.ioFaults == old(d.ioFaults) ==> EntryOnDisk(d.clusters)
      ensures HasEntry() ==> SameButFields(old(dirSectorBuf), dirSectorBuf, dirSectorOffset)
    {
      hide VR.Reaches, VR.Became;
      ghost var was := VR.Tables(d.fat, d.chains);
      ReleaseFile(d);
      if id in was.chains {
        VR.ReachesByStep(was, VR.Release(id), VR.Tables(d.fat, d.chains), {id});
      } else {
        VR.ReachesItself(was, {id});
      }
      FinishTruncate(d, 0, 0, true);
      ClustersNeeded(0, d.geo.sectorsPerCluster);
    }

    /** Frees the clusters past the needed ones, if there are any. */
    method CutOrKeep(d: Disk, needed: nat, count: nat)
      requires d.Valid() && WellFormed(d.fat, d.chains) && id in d.chains && Direct(d) && 0 < needed <= count == |d.chains[id]| && d.fatFaults == 0
      modifies d`sectors, d`fat, d`chains, d`fatFaults
      ensures d.Valid() && WellFormed(d.fat, d.chains) && d.fatFaults == 0 && EntryPlaced(d)
      ensures id in old(d.chains) && d.chains == old(d.chains)[id := old(d.chains)[id][..needed]]
      ensures FreeCount(d.fat) + needed == FreeCount(old(d.fat)) + count
      ensures VR.Reaches(VR.Tables(old(d.fat), old(d.chains)), VR.Tables(d.fat, d.chains), {id})
    {
      hide FatsHold, DataImage, Disjoint, Covered, AllChains, Quot, Rem, Times, FreeCount, VR.Reaches, VR.Became;
      OwnChain(d.fat, d.chains, id);
      DiskShape(d);
      ghost var ch := d.chains[id];
      ghost var was := VR.Tables(d.fat, d.chains);
      if needed < count {
        ShrinkFile(d, needed);
        VR.ReachesByStep(was, VR.Shrink(id, needed), VR.Tables(d.fat, d.chains), {id});
      } else {
        VR.ReachesItself(was, {id});
        assert ch[..needed] == ch && d.chains == d.chains[id := ch];
      }
      assert forall c :: c in ch[..needed] ==> c in ch;
      assert EntryPlaced(d);
    }

    /** The file keeps the first n clusters of its chain, and no data on them has changed. */
    ghost predicate Shortened(d: Disk, chains: map<int, seq<nat>>, cl: Clusters, n: nat)
      reads this`dirSectorBuf, d`chains, d`clusters
    {
      id in chains && id in d.chains && n <= |chains[id]| && d.chains[id] == chains[id][..n] && OnlyChanged(cl, d.clusters, [])
    }

    /** Truncation within the chain: the clusters past the needed ones are freed. */
    method TruncateWithin(d: Disk, needed: nat, count: nat, length: nat)
      requires d.Valid() && WellFormed(d.fat, d.chains) && id in d.chains && Direct(d) && d.fatFaults == 0
      requires 0 < length < 0x1_0000_0000 && needed == ClustersFor(length, d.geo.sectorsPerCluster) <= count == |d.chains[id]|
      modifies this`firstCluster, this`fileSize, this`currentCluster, this`currentClusterIdx, this`lastOffset, this`dirSectorBuf
      modifies this`writeCluster, this`sectorInCluster, this`writeIdx
      modifies d`sectors, d`fat, d`clusters, d`chains, d`fatFaults, d`ioFaults
      ensures d.Valid() && Truncated(d, old(d.fat), old(d.chains), old(d.clusters), old(fileSize), length)
      ensures Shortened(d, old(d.chains), old(d.clusters), needed)
      ensures AtStart() && d.fatFaults == 0 && d.ioFaults <= old(d.ioFaults)
      ensures HasEntry() && d.ioFaults == old(d.ioFaults) ==> EntryOnDisk(d.clusters)
      ensures HasEntry() ==> SameButFields(old(dirSectorBuf), dirSectorBuf, dirSectorOffset)
    {
      hide FatsHold, DataImage, WellFormed, Quot, Rem, Times, FreeCount, SameButFields, FileInfo.EntryOnDisk,
           FileInfo.AtStart, VR.Reaches;
      OwnChain(d.fat, d.chains, id);
      DiskShape(d);
      ghost var fat, chains, cl, size := d.fat, d.chains, d.clusters, fileSize;
      ClustersNeeded(length, d.geo.sectorsPerCluster);
      CutOrKeep(d, needed, count);
      FinishTruncate(d, firstCluster, length, false);
      CutToLength(d, fat, chains, cl, needed, size, length);
    }

    lemma CutToLength(d: Disk, fat: Fat, chains: map<int, seq<nat>>, cl: Clusters, needed: nat, size: nat, length: nat)
      requires d.geo.sectorsPerCluster > 0 && id in chains && 0 < needed == ClustersFor(length, d.geo.sectorsPerCluster) <= |chains[id]|
      requires WellFormed(d.fat, d.chains) && d.chains == chains[id := chains[id][..needed]] && d.Valid()
      requires FreeCount(d.fat) + needed == FreeCount(fat) + |chains[id]|
      requires VR.Reaches(VR.Tables(fat, chains), VR.Tables(d.fat, d.chains), {id})
      requires Holds(cl, chains[id], d.geo.sectorsPerCluster) && size <= Times(|chains[id]|, d.geo.sectorsPerCluster) * 512
      requires OnlyChanged(cl, d.clusters, [])
      requires EntryPlaced(d) && EntryAgrees() && !buffered && firstCluster == chains[id][0] && fileSize == length
      ensures Truncated(d, fat, chains, cl, size, length)
    {
      hide FatsHold, DataImage, Disjoint, Covered, AllChains, Quot, Rem, Times, FreeCount, VR.Reaches;
      ghost var ch, spc := chains[id], d.geo.sectorsPerCluster;
      ClustersNeeded(length, spc);
      OwnChain(d.fat, d.chains, id);
      DiskShape(d);
      PrefixContent(cl, ch, needed, spc, Least(size, length));
      assert forall c :: c in ch[..needed] ==> c in ch;
      SameContentFrame(cl, ch, cl, ch[..needed], spc, Least(size, length), d.clusters);
    }

    /** The file has moved to n clusters: the sectors of its first size bytes have been copied, all others are as they were. */
    ghost predicate Moved(d: Disk, chains: map<int, seq<nat>>, cl: Clusters, size: nat, n: nat)
      reads this`firstCluster, d`chains, d`clusters
    {
      && id in chains && id in d.chains && d.chains[id] == Run(firstCluster, n)
      && Copied(cl, chains[id], d.clusters, d.chains[id], d.geo.sectorsPerCluster, CeilSectors(size))
    }

    /** Growth onto a new block. */
    method TruncateGrow(d: Disk, needed: nat, length: nat) returns (st: Status)
      requires d.Valid() && WellFormed(d.fat, d.chains) && Direct(d) && length < 0x1_0000_0000
      requires |d.chains[id]| < needed == ClustersFor(length, d.geo.sectorsPerCluster)
      modifies this`firstCluster, this`fileSize, this`currentCluster, this`currentClusterIdx, this`lastOffset, this`dirSectorBuf
      modifies this`writeCluster, this`sectorInCluster, this`writeIdx
      modifies d`sectors, d`fat, d`clusters, d`chains, d`fatFaults, d`ioFaults
      ensures d.Valid() && d.fatFaults <= old(d.fatFaults) && d.ioFaults <= old(d.ioFaults) && (st.Done? ==> AtStart())
      ensures st.Done? && old(d.fatFaults) == 0 ==> Truncated(d, old(d.fat), old(d.chains), old(d.clusters), old(fileSize), length)
      ensures st.Done? && old(d.fatFaults) == 0 ==> Moved(d, old(d.chains), old(d.clusters), old(fileSize), needed)
      ensures st.Done? ==> forall s :: 0 <= s < firstCluster ==> !RunAt(old(d.fat), s, needed)
      ensures st.Done? && HasEntry() && d.ioFaults == old(d.ioFaults) ==> EntryOnDisk(d.clusters)
      ensures HasEntry() ==> SameButFields(old(dirSectorBuf), dirSectorBuf, dirSectorOffset)
      ensures !st.Done? ==> d.chains == old(d.chains) && UsedKept(old(d.fat), old(d.clusters), d.fat, d.clusters)
      ensures !st.Done? && OneFault(old(d.fatFaults), old(d.ioFaults)) ==> d.fat == old(d.fat)
      ensures !st.Done? ==> unchanged(this)
      ensures SearchOrFault(old(d.fat), needed, st, d, old(d.fatFaults), old(d.ioFaults))
      ensures !st.Done? ==> AllOrLeaked(old(d.fat), d.fat, d.chains)
    {
      hide FatsHold, DataImage, Disjoint, Covered, AllChains, RunAt, Quot, Rem, Times, FileInfo.AtStart, OneFault,
           FileInfo.EntryOnDisk, SameContent, UsedKept, FreeCount, VR.Became, VR.Reaches, Copied;
      OwnChain(d.fat, d.chains, id);
      DiskShape(d);
      ghost var fat, chains, cl0, size := d.fat, d.chains, d.clusters, fileSize;
      ClustersNeeded(length, d.geo.sectorsPerCluster);
      TimesMono(|chains[id]|, needed - 1, d.geo.sectorsPerCluster);
      var start;
      st, start := GrowFile(d, needed, length);
      if !st.Done? {
        return;
      }
      ghost var cl := d.clusters;
      FinishTruncate(d, start, length, true);
      if old(d.fatFaults) == 0 {
        GrownToLength(d, fat, chains, cl0, cl, start, needed, size, length);
      }
    }

    lemma GrownToLength(d: Disk, fat: Fat, chains: map<int, seq<nat>>, cl0: Clusters, cl: Clusters, start: nat, needed: nat, size: nat, length: nat)
      requires d.geo.sectorsPerCluster > 0 && id in chains && |fat| <= END_MARK && IsChain(fat, chains[id]) && RunAt(fat, start, needed) && size <= length
      requires |chains[id]| < needed == ClustersFor(length, d.geo.sectorsPerCluster)
      requires d.Valid() && WellFormed(d.fat, d.chains) && d.fat == Freed(LinkRun(fat, start, needed), chains[id])
      requires d.chains == chains[id := Run(start, needed)]
      requires VR.Became(VR.Tables(fat, chains), VR.Move(id, start, needed), VR.Tables(d.fat, d.chains))
      requires SameOutside(cl0, cl, start, needed) && SameContent(cl0, chains[id], cl, Run(start, needed), d.geo.sectorsPerCluster, size)
      requires Copied(cl0, chains[id], cl, Run(start, needed), d.geo.sectorsPerCluster, CeilSectors(size))
      requires OnlyChanged(cl, d.clusters, [])
      requires EntryPlaced(d) && EntryAgrees() && !buffered && firstCluster == start && fileSize == length
      ensures Truncated(d, fat, chains, cl0, size, length) && Moved(d, chains, cl0, size, needed)
    {
      hide FatsHold, DataImage, Disjoint, Covered, AllChains, RunAt, Quot, Rem, Times, FreeCount, SameContent,
           VR.Became, VR.Reaches, Copied;
      VR.ReachesByStep(VR.Tables(fat, chains), VR.Move(id, start, needed), VR.Tables(d.fat, d.chains), {id});
      ClustersNeeded(length, d.geo.sectorsPerCluster);
      OwnChain(d.fat, d.chains, id);
      DiskShape(d);
      SwapCount(fat, chains[id], start, needed);
      assert d.chains - {id} == chains - {id};
      assert d.chains[id] == Run(start, needed) && forall c :: c in d.chains[id] && c < |cl| ==> d.clusters[c] == cl[c];
      SameContentFrame(cl0, chains[id], cl, Run(start, needed), d.geo.sectorsPerCluster, size, d.clusters);
      CopiedFrame(cl0, chains[id], cl, Run(start, needed), d.geo.sectorsPerCluster, CeilSectors(size), d.clusters);
    }

    /** m65ftp_ftruncate on a direct file. */
    method TruncateDirect(d: Disk, length: nat) returns (st: Status)
      requires d.Valid() && WellFormed(d.fat, d.chains) && OpenDirect(d) && length < 0x1_0000_0000
      requires d.fatFaults > 0 ==> 0 < ChainLength(d.chains) < ClustersFor(length, d.geo.sectorsPerCluster)
      modifies this`firstCluster, this`fileSize, this`currentCluster, this`currentClusterIdx, this`lastOffset, this`dirSectorBuf
      modifies this`writeCluster, this`sectorInCluster, this`writeIdx
      modifies d`sectors, d`fat, d`clusters, d`chains, d`fatFaults, d`ioFaults
      ensures d.Valid() && d.fatFaults <= old(d.fatFaults) && d.ioFaults <= old(d.ioFaults) && (st.Done? ==> AtStart())
      ensures st.Done? && old(d.fatFaults) == 0 ==>
                Truncated(d, old(d.fat), old(d.chains), old(d.clusters), old(fileSize), length)
      ensures st.Done? && old(d.fatFaults) == 0 && 0 < ClustersFor(length, d.geo.sectorsPerCluster) <= old(ChainLength(d.chains)) ==>
                Shortened(d, old(d.chains), old(d.clusters), ClustersFor(length, d.geo.sectorsPerCluster))
      ensures st.Done? && old(d.fatFaults) == 0 && ClustersFor(length, d.geo.sectorsPerCluster) > old(ChainLength(d.chains)) ==>
                Moved(d, old(d.chains), old(d.clusters), old(fileSize), ClustersFor(length, d.geo.sectorsPerCluster))
      ensures st.Done? && ClustersFor(length, d.geo.sectorsPerCluster) > old(ChainLength(d.chains)) ==>
                forall s :: 0 <= s < firstCluster ==> !RunAt(old(d.fat), s, ClustersFor(length, d.geo.sectorsPerCluster))
      ensures st.Done? && HasEntry() && d.ioFaults == old(d.ioFaults) ==> EntryOnDisk(d.clusters)
      ensures HasEntry() ==> SameButFields(old(dirSectorBuf), dirSectorBuf, dirSectorOffset)
      ensures !st.Done? ==> d.chains == old(d.chains) && UsedKept(old(d.fat), old(d.clusters), d.fat, d.clusters)
      ensures !st.Done? && OneFault(old(d.fatFaults), old(d.ioFaults)) ==> d.fat == old(d.fat)
      ensures !st.Done? ==> unchanged(this)
      ensures d.geo.sectorsPerCluster > 0 && (ClustersFor(length, d.geo.sectorsPerCluster) <= old(ChainLength(d.chains)) ==> st.Done?)
      ensures length <= old(fileSize) ==> st.Done?
      ensures length > 0 && id !in old(d.chains) ==> st.Failed?
      ensures id in old(d.chains) && ClustersFor(length, d.geo.sectorsPerCluster) > old(ChainLength(d.chains)) ==>
                SearchOrFault(old(d.fat), ClustersFor(length, d.geo.sectorsPerCluster), st, d, old(d.fatFaults), old(d.ioFaults))
      ensures !st.Done? ==> AllOrLeaked(old(d.fat), d.fat, d.chains)
    {
      var spc := d.geo.sectorsPerCluster;
      ClustersNeeded(length, spc);
      var clusterSize := spc * 512;
      var needed := if length == 0 then 0 else Quot(length + clusterSize - 1, clusterSize);
      if needed == 0 {
        TruncateToZero(d);
        return Done;
      }
      if firstCluster == 0 || firstCluster >= END_MARK {
        return Failed;
      }
      if length <= fileSize {
        ClustersFit(length, |d.chains[id]|, spc);
      }
      var count, last := CountClusterChain(d, firstCluster, d.chains[id]);
      if needed > count {
        st := TruncateGrow(d, needed, length);
      } else {
        TruncateWithin(d, needed, count, length);
        st := Done;
      }
    }
  }

  /** A free run has been linked but belongs to no owner: the volume has lost it. */
  ghost predicate Leaked(fat: Fat, fat': Fat, chains: map<int, seq<nat>>) {
    !WellFormed(fat', chains) && exists start, n :: n > 0 && RunAt(fat, start, n) && fat' == LinkRun(fat, start, n)
  }

  lemma LeakedRun(fat: Fat, chains: map<int, seq<nat>>, start: nat, n: nat)
    requires WellFormed(fat, chains) && n > 0 && RunAt(fat, start, n)
    ensures Leaked(fat, LinkRun(fat, start, n), chains)
  {
    FreeIsUnowned(fat, chains, start);
    assert LinkRun(fat, start, n)[start] != 0 && !Owned(chains, start);
  }

  /** A call that looks for n clusters ends as the search does, or fails because something else has failed. */
  ghost predicate SearchOrFault(fat: Fat, n: nat, st: Status, d: Disk, fatFaults: nat, ioFaults: nat)
    reads d`fat, d`fatFaults, d`ioFaults
  {
    if SomeRun(fat, n) then st.Done? || (st.Failed? && (d.fatFaults < fatFaults || d.ioFaults < ioFaults))
    else st == SearchEnds(fat, n) && d.fat == fat
  }

  /**
   * After a failed growth: the FAT is the old one exactly when no cluster of the
   * block has been left used, and exactly then the volume is well formed.
   */
  ghost predicate AllOrLeaked(fat: Fat, fat': Fat, chains: map<int, seq<nat>>) {
    && |fat'| == |fat|
    && (fat' == fat <==> forall c :: 2 <= c < |fat| && fat[c] == 0 ==> fat'[c] == 0)
    && (fat' == fat <==> WellFormed(fat', chains))
  }

  /** A block that was free belongs to no owner: what is left used of it is lost. */
  lemma LeftUsed(fat: Fat, chains: map<int, seq<nat>>, mid: Fat, fat': Fat, start: nat, n: nat, m: nat)
    requires WellFormed(fat, chains) && RunAt(fat, start, n) && m <= n
    requires KeptOutside(fat, mid, start, m) && KeptOutside(mid, fat', start, m)
    ensures AllOrLeaked(fat, fat', chains)
  {
    hide AllChains, Disjoint;
    if c :| start <= c < start + m && fat'[c] != 0 {
      FreeIsUnowned(fat, chains, c);
      assert !Owned(chains, c);
    } else {
      assert fat' == fat;
    }
  }

  /**
   * Two failing updates are enough: the first cluster of the block is allocated, the
   * next allocation fails, and so does the deallocation that should undo the first.
   */
  lemma DoubleFaultLeaks(fat: Fat, chains: map<int, seq<nat>>, start: nat, n: nat)
    requires WellFormed(fat, chains) && RunAt(fat, start, n) && n >= 2
    ensures var left := fat[start := END_MARK];
            && KeptOutside(fat, left, start, 1) && KeptOutside(left, left, start, 1)
            && !WellFormed(left, chains) && AllOrLeaked(fat, left, chains)
  {
    var left := fat[start := END_MARK];
    LeftUsed(fat, chains, left, left, start, n, 1);
    assert left[start] != fat[start];
  }

  /** The start of a chain holds the start of the file. */
  lemma PrefixContent(cl: Clusters, ch: seq<nat>, k: nat, spc: nat, size: nat)
    requires Holds(cl, ch, spc) && k <= |ch| && size <= Times(k, spc) * 512
    ensures SameContent(cl, ch, cl, ch[..k], spc, size)
  {
    SectorsPrefix(cl, ch[..k], ch, spc);
    forall i | 0 <= i < size ensures ByteAt(cl, ch[..k], spc, i) == ByteAt(cl, ch, spc, i) {
      assert SectorAt(cl, ch, spc, i / 512) == SectorAt(cl, ch[..k], spc, i / 512);
    }
  }

  lemma SameContentFrame(cl0: Clusters, ch0: seq<nat>, cl: Clusters, ch: seq<nat>, spc: nat, size: nat, cl': Clusters)
    requires SameContent(cl0, ch0, cl, ch, spc, size) && |cl'| == |cl|
    requires forall c :: c in ch && c < |cl| ==> cl'[c] == cl[c]
    ensures SameContent(cl0, ch0, cl', ch, spc, size)
  {
    SectorsFrame(cl, cl', ch, spc);
    forall i | 0 <= i < size ensures ByteAt(cl', ch, spc, i) == ByteAt(cl, ch, spc, i) {
      assert SectorAt(cl', ch, spc, i / 512) == SectorAt(cl, ch, spc, i / 512);
    }
  }

  lemma ChainSuffix(fat: Fat, ch: seq<nat>, k: nat)
    requires IsChain(fat, ch) && k < |ch|
    ensures IsChain(fat, ch[k..])
  {
    forall i | 0 <= i < |ch[k..]| - 1 ensures fat[ch[k..][i]] == ch[k..][i + 1] {
      assert fat[ch[k + i]] == ch[k + i + 1];
    }
  }

  lemma ChainCount(fat: Fat, ch: seq<nat>)
    requires |fat| <= END_MARK && IsChain(fat, ch)
    ensures FreeCount(Freed(fat, ch)) == FreeCount(fat) + |ch|
  {
    ChainIsDistinct(fat, ch);
    forall c | c in ch ensures 2 <= c < |fat| && fat[c] != 0 {
      OwnedIsUsed(fat, ch, c);
    }
    FreedCount(fat, ch);
  }

  /** Freeing the clusters of a chain from k on and ending it there is a step of the volume. */
  lemma CutBecomes(fat: Fat, chains: map<int, seq<nat>>, id: int, k: nat)
    requires WellFormed(fat, chains) && |fat| <= END_MARK && id in chains && 0 < k < |chains[id]|
    ensures var ch := chains[id];
            var now := VR.Tables(Freed(fat, ch[k..])[ch[k - 1] := END_MARK], chains[id := ch[..k]]);
            && WellFormed(now.fat, now.chains)
            && FreeCount(now.fat) == FreeCount(fat) + |ch| - k
            && VR.Became(VR.Tables(fat, chains), VR.Shrink(id, k), now)
  {
    hide FreeCount, Disjoint, Covered;
    Cut(fat, chains, id, k);
    CutCount(fat, chains[id], k);
  }

  lemma CutCount(fat: Fat, ch: seq<nat>, k: nat)
    requires |fat| <= END_MARK && IsChain(fat, ch) && 0 < k < |ch|
    ensures FreeCount(Freed(fat, ch[k..])[ch[k - 1] := END_MARK]) == FreeCount(fat) + |ch| - k
  {
    ChainSuffix(fat, ch, k);
    ChainCount(fat, ch[k..]);
    ChainIsDistinct(fat, ch);
    OwnedIsUsed(fat, ch, ch[k - 1]);
    assert ch[k - 1] !in ch[k..] by {
      assert forall j :: 0 <= j < |ch[k..]| ==> ch[k..][j] == ch[k + j];
    }
    RelinkCount(Freed(fat, ch[k..]), ch[k - 1], END_MARK);
  }

  lemma SwapCount(fat: Fat, ch: seq<nat>, start: nat, n: nat)
    requires |fat| <= END_MARK && IsChain(fat, ch) && RunAt(fat, start, n)
    ensures FreeCount(Freed(LinkRun(fat, start, n), ch)) == FreeCount(fat) - n + |ch|
  {
    LinkRunCount(fat, start, n);
    forall c | c in ch ensures LinkRun(fat, start, n)[c] == fat[c] {
      OwnedIsUsed(fat, ch, c);
    }
    ChainFrame(fat, LinkRun(fat, start, n), ch);
    ChainCount(LinkRun(fat, start, n), ch);
  }

  /** The fault model of the growing branch: whatever fails, the roll-back does not fail as well. */
  predicate OneFault(fatFaults: nat, ioFaults: nat) {
    fatFaults == 0 || (fatFaults == 1 && ioFaults == 0)
  }

  /** The first size bytes are the same on both chains. */
  ghost predicate SameContent(cl0: Clusters, ch0: seq<nat>, cl: Clusters, ch: seq<nat>, spc: nat, size: nat) {
    && Holds(cl0, ch0, spc) && Holds(cl, ch, spc)
    && size <= Times(|ch0|, spc) * 512 && size <= Times(|ch|, spc) * 512
    && Content(cl, ch, spc, size) == Content(cl0, ch0, spc, size)
  }

  /** Freeing the part of the new block that was taken gives back the FAT there was. */
  lemma RolledBack(fat: Fat, mid: Fat, fat': Fat, start: nat, n: nat, m: nat)
    requires RunAt(fat, start, n) && m <= n
    requires KeptOutside(fat, mid, start, m) && KeptOutside(mid, fat', start, m)
    ensures forall c :: 0 <= c < |fat| && fat[c] != 0 ==> fat'[c] == fat[c]
    ensures (forall c :: start <= c < start + m ==> fat'[c] == 0) ==> fat' == fat
  {
  }

  /**
   * A direct write puts its data at its offset exactly when, going on from the
   * remembered place, that place is the sector of the offset, and otherwise the
   * offset is not more than a sector past the chain.  Anything else moves the data.
   */
  lemma WritesAtOffsetExactly(f: FileInfo, d: Disk, offset: nat)
    requires f.Direct(d) && f.WriteCursor(d)
    ensures var n, spc := |d.chains[f.id]|, d.geo.sectorsPerCluster;
            f.WritePosition(n, spc, offset) == offset <==>
              if f.Resumes(offset) then Times(f.writeIdx, spc) + f.sectorInCluster == offset / 512 else offset / 512 <= Times(n, spc)
    ensures var n, spc := |d.chains[f.id]|, d.geo.sectorsPerCluster;
            offset <= f.fileSize ==>
              (f.WritePosition(n, spc, offset) == offset <==>
                 (f.Resumes(offset) ==> Times(f.writeIdx, spc) + f.sectorInCluster == offset / 512))
  {
    hide Quot, Rem, Times;
  }

  /** What a walk from the first cluster gives: the sector of the offset, or the end of a chain that is too short. */
  function WalkSector(n: nat, spc: nat, offset: nat): nat {
    if offset / 512 < Times(n, spc) then offset / 512 else Times(n, spc)
  }

  /** len bytes from position at on lie on the n clusters of a chain. */
  ghost predicate FitsChain(at: nat, len: nat, n: nat, spc: nat) {
    at + len <= Times(n, spc) * 512
  }

  /** How many bytes of a write of len bytes at position `at` are left when a chain of n clusters has ended. */
  function PastEnd(at: nat, len: nat, n: nat, spc: nat): nat {
    if at + len <= Times(n, spc) * 512 then 0 else if at >= Times(n, spc) * 512 then len else at + len - Times(n, spc) * 512
  }

  /** A write of len bytes at position `at` has come to the end of its chain, and the lowest run of the first batch size is linked. */
  ghost predicate Grows(a: VR.Tables, b: VR.Tables, id: int, at: nat, len: nat, spc: nat) {
    && id in a.chains && spc > 0 && PastEnd(at, len, |a.chains[id]|, spc) > 0
    && LinkedLowest(a.fat, a.chains, b.fat, b.chains, id, FirstBatch(PastEnd(at, len, |a.chains[id]|, spc), spc))
  }

  ghost predicate IsGrowth(g: seq<VR.Tables>, id: int, at: nat, len: nat, spc: nat) {
    |g| > 0 && forall i {:trigger g[i]} :: 0 <= i < |g| - 1 ==> Grows(g[i], g[i + 1], id, at, len, spc)
  }

  /** now comes from was by such links, one after the other. */
  ghost predicate GrewTo(was: VR.Tables, now: VR.Tables, id: int, at: nat, len: nat, spc: nat) {
    exists g: seq<VR.Tables> :: IsGrowth(g, id, at, len, spc) && g[0] == was && g[|g| - 1] == now
  }

  /**
   * How the loop ends without an I/O error: everything is written and lies on the
   * chain, or the write stands at the end of the chain and no run of the batch size is free.
   */
  ghost predicate LoopEnds(t: VR.Tables, id: int, at: nat, len: nat, spc: nat, st: Status, total: nat) {
    && id in t.chains && spc > 0
    && var left := PastEnd(at, len, |t.chains[id]|, spc);
       total + left == len && if left == 0 then st.Done? else !SomeRun(t.fat, FirstBatch(left, spc)) && st == SearchEnds(t.fat, FirstBatch(left, spc))
  }

  /** The same of the whole call, which fails only if nothing has been written. */
  ghost predicate WriteEnds(t: VR.Tables, id: int, at: nat, len: nat, spc: nat, st: Status, written: nat) {
    && id in t.chains && spc > 0
    && var left := PastEnd(at, len, |t.chains[id]|, spc);
       && written + left == len
       && if left == 0 then st.Done?
          else !SomeRun(t.fat, FirstBatch(left, spc)) && st == if !NoneFree(t.fat) then Hung else if written == 0 then Failed else Done
  }

  lemma CallEnds(t: VR.Tables, id: int, at: nat, len: nat, spc: nat, st: Status, total: nat)
    requires len > 0 && LoopEnds(t, id, at, len, spc, st, total)
    ensures WriteEnds(t, id, at, len, spc, if st.Failed? && total > 0 then Done else st, total)
  {
    hide SomeRun, NoneFree, FirstBatch, PastEnd;
  }

  lemma GrewItself(t: VR.Tables, id: int, at: nat, len: nat, spc: nat)
    ensures GrewTo(t, t, id, at, len, spc)
  {
    assert IsGrowth([t], id, at, len, spc);
  }

  lemma GrewOn(was: VR.Tables, a: VR.Tables, b: VR.Tables, id: int, at: nat, len: nat, spc: nat)
    requires GrewTo(was, a, id, at, len, spc) && Grows(a, b, id, at, len, spc)
    ensures GrewTo(was, b, id, at, len, spc)
  {
    hide Grows;
    var g: seq<VR.Tables> :| IsGrowth(g, id, at, len, spc) && g[0] == was && g[|g| - 1] == a;
    assert IsGrowth(g + [b], id, at, len, spc);
  }

  lemma NextGrows(g: seq<VR.Tables>, i: nat, id: int, at: nat, len: nat, spc: nat)
    requires IsGrowth(g, id, at, len, spc) && i < |g|
    ensures i == |g| - 1 || Grows(g[i], g[i + 1], id, at, len, spc)
  {
  }

  /** A chain that holds the write does not grow. */
  lemma GrowthFits(was: VR.Tables, now: VR.Tables, id: int, at: nat, len: nat, spc: nat)
    requires GrewTo(was, now, id, at, len, spc) && id in was.chains && FitsChain(at, len, |was.chains[id]|, spc)
    ensures now == was
  {
    hide LinkedLowest, FirstBatch;
    var g: seq<VR.Tables> :| IsGrowth(g, id, at, len, spc) && g[0] == was && g[|g| - 1] == now;
    NextGrows(g, 0, id, at, len, spc);
  }

  lemma FitsEnds(t: VR.Tables, id: int, at: nat, len: nat, spc: nat)
    requires id in t.chains && FitsChain(at, len, |t.chains[id]|, spc)
    ensures forall st, total :: LoopEnds(t, id, at, len, spc, st, total) ==> st.Done?
  {
    hide Times, SomeRun, FirstBatch;
  }

  /** The FAT and the chains before a write, its place and its length decide which clusters it takes, what it writes and how it ends. */
  lemma WriteIsDetermined(was: VR.Tables, t: VR.Tables, u: VR.Tables, id: int, at: nat, len: nat, spc: nat,
                          st: Status, written: nat, st': Status, written': nat)
    requires GrewTo(was, t, id, at, len, spc) && WriteEnds(t, id, at, len, spc, st, written)
    requires GrewTo(was, u, id, at, len, spc) && WriteEnds(u, id, at, len, spc, st', written')
    ensures t == u && st == st' && written == written'
  {
    hide Grows, SomeRun, FirstBatch, NoneFree;
    var g: seq<VR.Tables> :| IsGrowth(g, id, at, len, spc) && g[0] == was && g[|g| - 1] == t;
    var h: seq<VR.Tables> :| IsGrowth(h, id, at, len, spc) && h[0] == was && h[|h| - 1] == u;
    if |g| <= |h| {
      SameGrowth(g, h, |g| - 1, id, at, len, spc);
      GrowthStops(h, |g| - 1, id, at, len, spc, st, written);
    } else {
      SameGrowth(g, h, |h| - 1, id, at, len, spc);
      GrowthStops(g, |h| - 1, id, at, len, spc, st', written');
    }
  }

  lemma {:induction false} SameGrowth(g: seq<VR.Tables>, h: seq<VR.Tables>, i: nat, id: int, at: nat, len: nat, spc: nat)
    requires IsGrowth(g, id, at, len, spc) && IsGrowth(h, id, at, len, spc) && g[0] == h[0] && i < |g| && i < |h|
    ensures g[i] == h[i]
  {
    hide Grows;
    if i > 0 {
      SameGrowth(g, h, i - 1, id, at, len, spc);
      GrowsOneWay(g[i - 1], g[i], h[i], id, at, len, spc);
    }
  }

  lemma GrowsOneWay(a: VR.Tables, b: VR.Tables, c: VR.Tables, id: int, at: nat, len: nat, spc: nat)
    requires Grows(a, b, id, at, len, spc) && Grows(a, c, id, at, len, spc)
    ensures b == c
  {
    hide FirstBatch, PastEnd, RunAt, LinkRun, Run;
  }

  /** Where a write has ended it does not grow further. */
  lemma GrowthStops(g: seq<VR.Tables>, i: nat, id: int, at: nat, len: nat, spc: nat, st: Status, written: nat)
    requires IsGrowth(g, id, at, len, spc) && i < |g| && WriteEnds(g[i], id, at, len, spc, st, written)
    ensures i == |g| - 1
  {
    hide FirstBatch, PastEnd;
    NextGrows(g, i, id, at, len, spc);
  }

  /** When the lowest run of the first size holds the rest, the write is complete on it, and the chain has grown by just that many clusters. */
  lemma GrowsOnce(was: VR.Tables, now: VR.Tables, id: int, at: nat, len: nat, spc: nat, st: Status, written: nat)
    requires GrewTo(was, now, id, at, len, spc) && WriteEnds(now, id, at, len, spc, st, written)
    requires id in was.chains && PastEnd(at, len, |was.chains[id]|, spc) > 0
    ensures var left := PastEnd(at, len, |was.chains[id]|, spc);
            var n := FirstBatch(left, spc);
            && (!SomeRun(was.fat, n) ==> now == was && written == len - left)
            && (SomeRun(was.fat, n) && FitsChain(at, len, |was.chains[id]| + n, spc) ==>
                  st.Done? && written == len && LinkedLowest(was.fat, was.chains, now.fat, now.chains, id, n))
  {
    hide LinkedLowest, FirstBatch;
    var g: seq<VR.Tables> :| IsGrowth(g, id, at, len, spc) && g[0] == was && g[|g| - 1] == now;
    var n := FirstBatch(PastEnd(at, len, |was.chains[id]|, spc), spc);
    if |g| > 1 {
      assert Grows(g[0], g[1], id, at, len, spc);
      LowestLength(was.fat, was.chains, g[1].fat, g[1].chains, id, n);
      if |g| > 2 && FitsChain(at, len, |was.chains[id]| + n, spc) {
        assert Grows(g[1], g[2], id, at, len, spc);
      }
    }
  }

  /** At the end of the chain all that is left to write lies behind it. */
  lemma LeftAtEnd(at: nat, len: nat, total: nat, n: nat, spc: nat, idx: nat, sec: nat)
    requires total < len && sec == spc && idx + 1 == n && Times(idx, spc) + sec == FloorSector(at + total)
    requires total > 0 ==> Times(idx, spc) + sec == CeilSectors(at + total)
    ensures PastEnd(at, len, n, spc) == len - total
  {
    hide Times;
    TimesNext(idx, spc);
  }

  /** When everything is written, all of it lies on the chain. */
  lemma EndFits(t: VR.Tables, id: int, at: nat, len: nat, spc: nat, idx: nat, sec: nat)
    requires id in t.chains && spc > 0 && idx < |t.chains[id]| && sec <= spc
    requires len > 0 ==> Times(idx, spc) + sec == CeilSectors(at + len)
    ensures LoopEnds(t, id, at, len, spc, Done, len)
  {
    hide Times, SomeRun, FirstBatch;
    TimesNext(idx, spc);
    TimesMono(idx + 1, |t.chains[id]|, spc);
  }

  /** One turn of the loop: nothing is linked before the end of the chain, and there the lowest run or nothing. */
  lemma TurnGrows(was: VR.Tables, a: VR.Tables, b: VR.Tables, id: int, at: nat, len: nat, total: nat, spc: nat, idx: nat, sec: nat, st: Status)
    requires GrewTo(was, a, id, at, len, spc) && id in a.chains && spc > 0 && total < len
    requires idx < |a.chains[id]| && sec <= spc && Times(idx, spc) + sec == FloorSector(at + total)
    requires total > 0 ==> Times(idx, spc) + sec == CeilSectors(at + total)
    requires sec < spc || idx + 1 < |a.chains[id]| ==> st.Done? && b == a
    requires sec == spc && idx + 1 == |a.chains[id]| ==>
               && st == SearchEnds(a.fat, FirstBatch(len - total, spc)) && (!st.Done? ==> b == a)
               && (st.Done? ==> LinkedLowest(a.fat, a.chains, b.fat, b.chains, id, FirstBatch(len - total, spc)))
    ensures GrewTo(was, b, id, at, len, spc)
    ensures !st.Done? ==> LoopEnds(b, id, at, len, spc, st, total)
  {
    hide Times, SomeRun, FirstBatch, LinkedLowest, GrewTo, NoneFree, CeilSectors, FloorSector;
    if sec == spc && idx + 1 == |a.chains[id]| {
      LeftAtEnd(at, len, total, idx + 1, spc, idx, sec);
      if st.Done? {
        GrewOn(was, a, b, id, at, len, spc);
      }
    }
  }

  /** Owner id's chain got the lowest free run of n clusters behind it. */
  ghost predicate LinkedLowest(fat: Fat, chains: map<int, seq<nat>>, fat': Fat, chains': map<int, seq<nat>>, id: int, n: nat) {
    exists start: nat :: LinkedBehind(fat, chains, fat', chains', id, start, n) && forall s :: 0 <= s < start ==> !RunAt(fat, s, n)
  }

  lemma LowestLength(fat: Fat, chains: map<int, seq<nat>>, fat': Fat, chains': map<int, seq<nat>>, id: int, n: nat)
    requires LinkedLowest(fat, chains, fat', chains', id, n)
    ensures id in chains && id in chains' && |chains'[id]| == |chains[id]| + n && SomeRun(fat, n)
  {
  }

  /** How a search for n clusters ends: with a run, or with nothing free, or never. */
  ghost function SearchEnds(fat: Fat, n: nat): Status {
    if SomeRun(fat, n) then Done else if NoneFree(fat) then Failed else Hung
  }

  lemma RunMeansFree(fat: Fat, s: nat, n: nat)
    requires RunAt(fat, s, n) && n > 0
    ensures !NoneFree(fat) && SomeRun(fat, n)
  {
    assert fat[s] == 0;
  }

  lemma NoneFreeMeansNoRun(fat: Fat, n: nat)
    requires NoneFree(fat) && n > 0
    ensures !SomeRun(fat, n)
  {
    forall s: nat ensures !RunAt(fat, s, n) {
      RunStartsFree(fat, s, n);
    }
  }

  /** The number of clusters a direct write links when it still has so many bytes to write: a power of two from 2 to 64. */
  function FirstBatch(remaining: nat, spc: nat): (n: nat)
    requires spc > 0
    ensures n in {2, 4, 8, 16, 32, 64} && (remaining > 0 ==> n <= ClustersFor(remaining, spc) + 1)
  {
    ClustersNeeded(remaining, spc);
    LargestPower(ClustersFor(remaining, spc) + 1)
  }

  /**
   * It is the largest of these powers that is needed: p clusters are taken at once
   * exactly when the bytes would fill more than p - 2.
   */
  lemma FirstBatchExactly(remaining: nat, spc: nat, p: nat)
    requires spc > 0 && remaining > 0 && p in {2, 4, 8, 16, 32, 64}
    ensures p <= FirstBatch(remaining, spc) <==> Times(p - 2, spc) * 512 < remaining
  {
    hide Times, ClustersFor;
    var c := ClustersFor(remaining, spc);
    ClustersNeeded(remaining, spc);
    if p <= c + 1 {
      TimesMono(p - 2, c - 1, spc);
    } else {
      TimesMono(c, p - 2, spc);
    }
  }

  function LargestPower(k: nat): (n: nat)
    ensures n in {2, 4, 8, 16, 32, 64} && (k >= 2 ==> n <= k) && (n < 64 ==> k < 2 * n)
  {
    if k >= 64 then 64 else if k >= 32 then 32 else if k >= 16 then 16 else if k >= 8 then 8 else if k >= 4 then 4 else 2
  }

  /**
   * The single-cluster fallback never links anything: a batch search that returns 0
   * has found nothing free, and then find_free_cluster returns 0 as well.
   */
  lemma FallbackFindsNothing(fat: Fat, m: nat, r: nat)
    requires NoneFree(fat) && CyclicFirst(fat, m, r)
    ensures r == 0
  {
  }

  /** The largest power of two up to the wanted clusters, at most 64 and at least 2. */
  method StartBatch(remainingClusters: nat) returns (tryBatch: nat)
    ensures tryBatch in {2, 4, 8, 16, 32, 64}
    ensures remainingClusters >= 2 ==> tryBatch <= remainingClusters
    ensures tryBatch < 64 ==> remainingClusters < 2 * tryBatch
    ensures tryBatch == LargestPower(remainingClusters)
  {
    tryBatch := Least(remainingClusters, 64);
    var batchPower := 1;
    while batchPower <= tryBatch
      invariant batchPower in {1, 2, 4, 8, 16, 32, 64, 128}
      invariant batchPower == 1 || batchPower / 2 <= tryBatch
      decreases 128 - batchPower
    {
      batchPower := batchPower * 2;
    }
    tryBatch := batchPower / 2;
    if tryBatch < 2 {
      tryBatch := 2;
    }
  }

  /** Owner id's chain got the free run start..start+n behind it; nothing else changed. */
  ghost predicate LinkedBehind(fat: Fat, chains: map<int, seq<nat>>, fat': Fat, chains': map<int, seq<nat>>, id: int, start: nat, n: nat) {
    && id in chains && n > 0 && RunAt(fat, start, n)
    && |chains[id]| > 0 && chains[id][|chains[id]| - 1] < |fat|
    && fat' == LinkRun(fat, start, n)[chains[id][|chains[id]| - 1] := start]
    && chains' == chains[id := chains[id] + Run(start, n)]
  }

  /** The volume when a direct write begins, and the byte position in the file its data goes to. */
  datatype WriteStart = WriteStart(fat: Fat, chains: map<int, seq<nat>>, clusters: Clusters, at: nat)

  /**
   * A direct write under way: data is spliced into the file of owner id at byte
   * position at, its chain has grown by free clusters only, and no other cluster
   * differs.
   */
  ghost predicate Progress(id: int, spc: nat, fat0: Fat, chains0: map<int, seq<nat>>, cl0: Clusters,
                           fat: Fat, chains: map<int, seq<nat>>, cl: Clusters, at: nat, data: seq<byte>) {
    && id in chains0 && id in chains && chains == chains0[id := chains[id]]
    && Grown(fat0, chains0[id], fat, chains[id])
    && VR.Reaches(VR.Tables(fat0, chains0), VR.Tables(fat, chains), {id})
    && Spliced(cl0, chains0[id], cl, chains[id], spc, at, data)
    && |cl| == |cl0| && (forall c :: 0 <= c < |cl| && c !in chains[id] ==> cl[c] == cl0[c])
  }

  lemma ProgressFirst(id: int, spc: nat, fat: Fat, chains: map<int, seq<nat>>, cl: Clusters, at: nat)
    requires id in chains && Holds(cl, chains[id], spc)
    ensures Progress(id, spc, fat, chains, cl, fat, chains, cl, at, [])
  {
    assert chains == chains[id := chains[id]];
    VR.ReachesItself(VR.Tables(fat, chains), {id});
    SplicedFirst(cl, chains[id], spc, at);
  }

  lemma ProgressShape(id: int, spc: nat, w: WriteStart, fat: Fat, chains: map<int, seq<nat>>, cl: Clusters, data: seq<byte>)
    requires Progress(id, spc, w.fat, w.chains, w.clusters, fat, chains, cl, w.at, data)
    ensures id in chains
  {
  }

  lemma LinkedReaches(id: int, fat0: Fat, chains0: map<int, seq<nat>>, fat: Fat, chains: map<int, seq<nat>>,
                      fat': Fat, chains': map<int, seq<nat>>, start: nat, n: nat)
    requires VR.Reaches(VR.Tables(fat0, chains0), VR.Tables(fat, chains), {id})
    requires LinkedBehind(fat, chains, fat', chains', id, start, n)
    ensures VR.Reaches(VR.Tables(fat0, chains0), VR.Tables(fat', chains'), {id})
  {
    hide VR.Reaches;
    assert VR.Became(VR.Tables(fat, chains), VR.Extend(id, start, n), VR.Tables(fat', chains'));
    VR.ReachesByStep(VR.Tables(fat, chains), VR.Extend(id, start, n), VR.Tables(fat', chains'), {id});
    VR.ReachesOn(VR.Tables(fat0, chains0), VR.Tables(fat, chains), VR.Tables(fat', chains'), {id});
  }

  lemma ProgressLinked(id: int, spc: nat, fat0: Fat, chains0: map<int, seq<nat>>, cl0: Clusters,
                       fat: Fat, chains: map<int, seq<nat>>, cl: Clusters, at: nat, data: seq<byte>,
                       fat': Fat, chains': map<int, seq<nat>>, start: nat, n: nat)
    requires Progress(id, spc, fat0, chains0, cl0, fat, chains, cl, at, data)
    requires WellFormed(fat, chains) && LinkedBehind(fat, chains, fat', chains', id, start, n)
    requires |cl| == |fat| && forall c :: 0 <= c < |cl| ==> |cl[c]| == spc
    ensures Progress(id, spc, fat0, chains0, cl0, fat', chains', cl, at, data)
  {
    hide VR.Reaches, Grown, WellFormed, IsChain, LinkRun, Times, ByteAt;
    var ch := chains[id];
    var ch' := ch + Run(start, n);
    LinkedReaches(id, fat0, chains0, fat, chains, fat', chains', start, n);
    OwnChain(fat, chains, id);
    GrownBy(fat0, chains0[id], fat, ch, start, n);
    SplicedLonger(cl0, chains0[id], cl, ch, spc, at, data, ch');
    assert forall c :: c in ch ==> c in ch';
  }

  lemma ProgressStored(id: int, spc: nat, fat0: Fat, chains0: map<int, seq<nat>>, cl0: Clusters,
                       fat: Fat, chains: map<int, seq<nat>>, cl: Clusters, at: nat, data: seq<byte>,
                       idx: nat, sec: nat, piece: seq<byte>)
    requires Progress(id, spc, fat0, chains0, cl0, fat, chains, cl, at, data)
    requires WellFormed(fat, chains) && idx < |chains[id]| && sec < spc
    requires (at + |data|) / 512 == Times(idx, spc) + sec && (at + |data|) % 512 + |piece| <= 512
    ensures chains[id][idx] < |cl| && |cl[chains[id][idx]]| == spc
    ensures var c := chains[id][idx];
            Progress(id, spc, fat0, chains0, cl0, fat, chains,
                     Stored(cl, c, sec, Patched(cl[c][sec], (at + |data|) % 512, piece)), at, data + piece)
  {
    hide VR.Reaches;
    ChainIsDistinct(fat, chains[id]);
    SplicedNext(cl0, chains0[id], cl, chains[id], spc, at, data, idx, sec, piece);
    assert chains[id][idx] in chains[id];
  }

  /** data are the bytes from offset o on, read with start index si. */
  ghost predicate BytesFrom(cl: Clusters, ch: seq<nat>, spc: nat, si: nat, o: nat, data: seq<byte>) {
    && Holds(cl, ch, spc) && si < |ch| && (data == [] || o + |data| <= Times(|ch|, spc) * 512)
    && forall p {:trigger ByteFrom(cl, ch, spc, si, p)} :: o <= p < o + |data| ==> ByteFrom(cl, ch, spc, si, p) == data[p - o]
  }

  /** How many bytes a read of count bytes at offset returns. */
  function ReadLength(size: nat, offset: nat, count: nat): nat {
    if offset >= size then 0 else Least(count, size - offset)
  }

  /** Sector k of the file, except that clusters before index si are not gone back to. */
  ghost function SectorFrom(cl: Clusters, ch: seq<nat>, spc: nat, si: nat, k: nat): Sector
    requires Holds(cl, ch, spc) && k < Times(|ch|, spc) && si < |ch|
  {
    QuotBound(k, |ch|, spc);
    cl[ch[MaxOf(si, Quot(k, spc))]][Rem(k, spc)]
  }

  /** Byte p of the file, read in the same way. */
  ghost function ByteFrom(cl: Clusters, ch: seq<nat>, spc: nat, si: nat, p: nat): byte
    requires Holds(cl, ch, spc) && p / 512 < Times(|ch|, spc) && si < |ch|
  {
    SectorFrom(cl, ch, spc, si, p / 512)[p % 512]
  }

  /** The chain index from which byte p is read when reading started at index si. */
  function ReadIndex(si: nat, p: nat, spc: nat): nat
    requires spc > 0
  {
    MaxOf(si, Quot(p / 512, spc))
  }

  lemma ReadIndexMono(si: nat, p: nat, spc: nat)
    requires spc > 0
    ensures si <= ReadIndex(si, p, spc)
    ensures p > 0 ==> si <= ReadIndex(si, p - 1, spc) <= ReadIndex(si, p, spc)
  {
    if p > 0 {
      QuotMono((p - 1) / 512, p / 512, spc);
    }
  }

  /** A piece that stays in its sector is read from one cluster. */
  lemma PieceIndex(si: nat, p: nat, n: nat, spc: nat)
    requires spc > 0 && 0 < n <= 512 - p % 512
    ensures ReadIndex(si, p + n - 1, spc) == ReadIndex(si, p, spc)
  {
    InSector(p, n - 1);
  }

  lemma IndexFits(si: nat, p: nat, q: nat, spc: nat)
    requires spc > 0 && p <= q
    ensures Quot(p / 512, spc) <= Quot(q / 512, spc)
    ensures si <= Quot(p / 512, spc) ==> ReadIndex(si, q, spc) <= Quot(q / 512, spc)
  {
    QuotMono(p / 512, q / 512, spc);
  }

  lemma ReadNothing(cl: Clusters, ch: seq<nat>, spc: nat, si: nat, o: nat)
    requires Holds(cl, ch, spc) && si < |ch|
    ensures BytesFrom(cl, ch, spc, si, o, [])
  {
  }

  lemma PieceAppended(cl: Clusters, ch: seq<nat>, spc: nat, si: nat, o: nat, data: seq<byte>, piece: seq<byte>)
    requires BytesFrom(cl, ch, spc, si, o, data) && BytesFrom(cl, ch, spc, si, o + |data|, piece)
    ensures BytesFrom(cl, ch, spc, si, o, data + piece)
  {
  }

  /** All bytes of one sector have the place of its first. */
  lemma SectorBytes(cl: Clusters, ch: seq<nat>, spc: nat, si: nat, o: nat, n: nat)
    requires Holds(cl, ch, spc) && o / 512 < Times(|ch|, spc) && si < |ch| && o % 512 + n <= 512
    ensures BytesFrom(cl, ch, spc, si, o, SectorFrom(cl, ch, spc, si, o / 512)[o % 512..o % 512 + n])
  {
    hide Times, SectorFrom, Holds;
    SectorsFit(o, n, Times(|ch|, spc));
    var sector := SectorFrom(cl, ch, spc, si, o / 512);
    forall p | o <= p < o + n ensures p / 512 == o / 512 && ByteFrom(cl, ch, spc, si, p) == sector[o % 512..o % 512 + n][p - o] {
      InSector(o, p - o);
    }
  }

  /** A read starts in the cluster its offset lies in exactly when it does not go on from a cluster behind it. */
  lemma ReadsAtOffsetExactly(f: FileInfo, d: Disk, offset: nat)
    requires d.Valid() && WellFormed(d.fat, d.chains) && f.Direct(d) && f.Remembers(d) && offset < f.fileSize
    ensures d.geo.sectorsPerCluster > 0
    ensures var ch, spc := d.chains[f.id], d.geo.sectorsPerCluster;
            && Quot(offset / 512, spc) < |ch| && ReadIndex(f.StartIndex(offset), offset, spc) < |ch|
            && (ch[ReadIndex(f.StartIndex(offset), offset, spc)] == ch[Quot(offset / 512, spc)]
                <==> (offset == f.lastOffset ==> f.currentClusterIdx <= Quot(offset / 512, spc)))
  {
    hide Rem, Times;
    DiskShape(d);
    ChainIsDistinct(d.fat, d.chains[f.id]);
    QuotBound(offset / 512, |d.chains[f.id]|, d.geo.sectorsPerCluster);
  }

  /** A byte behind the place where reading started is read from its own cluster. */
  lemma FromOwnCluster(cl: Clusters, ch: seq<nat>, spc: nat, si: nat, o: nat, p: nat)
    requires Holds(cl, ch, spc) && si <= Quot(o / 512, spc) && o <= p && p / 512 < Times(|ch|, spc) && si < |ch|
    ensures ByteFrom(cl, ch, spc, si, p) == ByteAt(cl, ch, spc, p)
  {
    QuotMono(o / 512, p / 512, spc);
    QuotBound(p / 512, |ch|, spc);
  }

  /** Then what is read is the content of the file. */
  lemma ReadsContent(cl: Clusters, ch: seq<nat>, spc: nat, si: nat, o: nat, data: seq<byte>, size: nat)
    requires BytesFrom(cl, ch, spc, si, o, data) && si <= Quot(o / 512, spc)
    requires size <= Times(|ch|, spc) * 512 && o + |data| <= size
    ensures data == Content(cl, ch, spc, size)[o..o + |data|]
  {
    hide Quot, Times, ByteFrom, ByteAt, Holds;
    forall p | o <= p < o + |data| ensures p / 512 < Times(|ch|, spc) && data[p - o] == ByteAt(cl, ch, spc, p) {
      FromOwnCluster(cl, ch, spc, si, o, p);
      assert ByteFrom(cl, ch, spc, si, p) == data[p - o];
    }
  }

  /** The file's bytes are those of the buffer, then zeros, up to size. */
  ghost predicate BytesAre(cl: Clusters, ch: seq<nat>, spc: nat, buf: seq<byte>, size: nat) {
    && Holds(cl, ch, spc) && size <= Times(|ch|, spc) * 512
    && forall i :: 0 <= i < size ==> ByteAt(cl, ch, spc, i) == BufferedByte(buf, i)
  }

  /** What a read of a buffered file sees at offset i below its size. */
  function BufferedByte(buf: seq<byte>, i: nat): byte {
    if i < |buf| then buf[i] else 0
  }

  lemma FlushedBytes(cl: Clusters, ch: seq<nat>, spc: nat, buf: seq<byte>, size: nat)
    requires size <= Times(|ch|, spc) * 512 && Flushed(cl, ch, spc, buf, size, Times(|ch|, spc))
    ensures BytesAre(cl, ch, spc, buf, size)
  {
    hide Times, Quot, Rem, ByteAt, Holds, SectorAt, BufferedByte;
    forall i | 0 <= i < size ensures i / 512 < Times(|ch|, spc) && ByteAt(cl, ch, spc, i) == BufferedByte(buf, i) {
      assert SectorAt(cl, ch, spc, i / 512) == FlushSector(buf, size, i / 512 * 512);
      FlushedByte(cl, ch, spc, buf, size, i);
    }
  }

  lemma FlushedByte(cl: Clusters, ch: seq<nat>, spc: nat, buf: seq<byte>, size: nat, i: nat)
    requires Holds(cl, ch, spc) && i / 512 < Times(|ch|, spc) && i < size
    requires SectorAt(cl, ch, spc, i / 512) == FlushSector(buf, size, i / 512 * 512)
    ensures ByteAt(cl, ch, spc, i) == BufferedByte(buf, i)
  {
    hide Times, SectorAt, Holds;
  }

  lemma BytesAreFrame(cl: Clusters, cl': Clusters, ch: seq<nat>, spc: nat, buf: seq<byte>, size: nat)
    requires BytesAre(cl, ch, spc, buf, size) && |cl'| == |cl|
    requires forall c :: c in ch && c < |cl| ==> cl'[c] == cl[c]
    ensures BytesAre(cl', ch, spc, buf, size)
  {
    SectorsFrame(cl, cl', ch, spc);
    forall i | 0 <= i < size ensures ByteAt(cl', ch, spc, i) == BufferedByte(buf, i) {
      assert SectorAt(cl', ch, spc, i / 512) == SectorAt(cl, ch, spc, i / 512);
    }
  }

  /** No used cluster changes its entry or its data. */
  ghost predicate UsedKept(fat: Fat, cl: Clusters, fat': Fat, cl': Clusters) {
    && |fat| == |cl| == |fat'| == |cl'|
    && forall c :: 0 <= c < |fat| && fat[c] != 0 ==> fat'[c] == fat[c] && cl'[c] == cl[c]
  }

  /** Only the n clusters from start may differ. */
  ghost predicate SameOutside(cl: Clusters, cl': Clusters, start: nat, n: nat) {
    |cl'| == |cl| && forall c :: 0 <= c < |cl| && !(start <= c < start + n) ==> cl'[c] == cl[c]
  }

  /** What is left of size bytes after k sectors. */
  function Left(size: nat, k: nat): nat {
    if k * 512 < size then size - k * 512 else 0
  }
}
