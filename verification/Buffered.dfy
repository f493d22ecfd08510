/**
 * Files that are still in memory: writes and truncations of the buffer, the write
 * that crosses the buffer limit, and reading across a flush.
 */
module Buffered {
  import opened Bytes
  import opened Chains
  import opened Volume
  import opened Allocator
  import opened Contents
  import opened Arith
  import opened DirFields
  import opened Splicing
  import opened FileLayer
  import opened Sessions
  import Chainless
  import VR = VolumeRuns

  const BUFFER_LIMIT: nat := 64 * 1024 * 1024

  /** What a buffered file holds: its buffer, and zeros past the buffer's end. */
  function Held(f: FileInfo): (r: seq<byte>)
    reads f`writeBuf, f`fileSize
    ensures |r| == f.fileSize && forall i :: 0 <= i < f.fileSize ==> r[i] == BufferedByte(f.writeBuf, i)
  {
    var buffer := f.writeBuf;
    seq<byte>(f.fileSize, i requires 0 <= i => BufferedByte(buffer, i))
  }

  /** The bytes of the buffer past the end of the file are zero. */
  ghost predicate ZeroTail(f: FileInfo)
    reads f`writeBuf, f`fileSize
  {
    forall i :: f.fileSize <= i < |f.writeBuf| ==> f.writeBuf[i] == 0
  }

  /** The bytes of the buffer from the end of the file up to `end` are zero. */
  ghost predicate ZeroGap(f: FileInfo, end: nat)
    reads f`writeBuf, f`fileSize
  {
    forall i :: f.fileSize <= i < end && i < |f.writeBuf| ==> f.writeBuf[i] == 0
  }

  /** The bytes of a write at any offset: a gap before it reads as zeros. */
  function Written(s: seq<byte>, offset: nat, data: seq<byte>): (r: seq<byte>)
    ensures |r| == MaxOf(|s|, offset + |data|)
    ensures forall i :: 0 <= i < |r| ==> r[i] == if offset <= i < offset + |data| then data[i - offset] else if i < |s| then s[i] else 0
  {
    seq<byte>(MaxOf(|s|, offset + |data|), i requires 0 <= i < MaxOf(|s|, offset + |data|) =>
      if offset <= i < offset + |data| then data[i - offset] else if i < |s| then s[i] else 0)
  }

  /** The buffer's capacity for bytes up to end: kept when it is enough, or doubled from 4096 on, up to the limit. */
  function Capacity(buf: seq<byte>, end: nat): (cap: nat)
    requires |buf| <= BUFFER_LIMIT
    ensures |buf| <= cap <= BUFFER_LIMIT && (end <= BUFFER_LIMIT ==> end <= cap)
    ensures end <= |buf| ==> cap == |buf|
  {
    if end <= |buf| then |buf|
    else
      var wanted := Doubled(if buf == [] then 4096 else |buf|, end);
      if wanted > BUFFER_LIMIT then BUFFER_LIMIT else wanted
  }

  /** The capacity doubled until it reaches end, so less than twice as much as is needed. */
  function Doubled(cap: nat, end: nat): (r: nat)
    requires cap > 0
    ensures r >= end && (cap < end ==> r < 2 * end) && (cap >= end ==> r == cap)
    decreases end - cap
  {
    if cap >= end then cap else Doubled(cap * 2, end)
  }

  /** realloc to doubled capacity, at least end and at most the limit, with the new part zeroed. */
  method GrowBuffer(f: FileInfo, end: nat)
    requires |f.writeBuf| <= BUFFER_LIMIT
    modifies f`writeBuf
    ensures forall i :: 0 <= i < |f.writeBuf| ==> f.writeBuf[i] == BufferedByte(old(f.writeBuf), i)
    ensures |f.writeBuf| == Capacity(old(f.writeBuf), end)
  {
    if end > |f.writeBuf| {
      var newCap := |f.writeBuf|;
      if newCap == 0 {
        newCap := 4096;
      }
      while newCap < end
        invariant newCap > 0 && |f.writeBuf| <= newCap && f.writeBuf == old(f.writeBuf)
        invariant Doubled(newCap, end) == Doubled(if f.writeBuf == [] then 4096 else |f.writeBuf|, end)
        decreases end - newCap
      {
        newCap := newCap * 2;
      }
      if newCap > BUFFER_LIMIT {
        newCap := BUFFER_LIMIT;
      }
      f.writeBuf := f.writeBuf + seq<byte>(newCap - |f.writeBuf|, _ => 0);
    }
  }

  /**
   * The buffered branch of m65ftp_pwrite, for a write that ends within the limit.
   * It is a write to a byte string exactly when the buffer is zero between the end
   * of the file and the offset.
   */
  method PwriteBuffered(f: FileInfo, buf: seq<byte>, offset: nat)
    requires f.buffered && |f.writeBuf| <= BUFFER_LIMIT && buf != [] && offset + |buf| <= BUFFER_LIMIT
    modifies f`writeBuf, f`fileSize
    ensures |f.writeBuf| <= BUFFER_LIMIT && f.fileSize == MaxOf(old(f.fileSize), offset + |buf|)
    ensures forall i :: 0 <= i < f.fileSize ==>
              Held(f)[i] == if offset <= i < offset + |buf| then buf[i - offset] else BufferedByte(old(f.writeBuf), i)
    ensures Held(f) == Written(old(Held(f)), offset, buf) <==> old(ZeroGap(f, offset))
    ensures old(ZeroTail(f)) ==> ZeroTail(f)
  {
    GrowBuffer(f, offset + |buf|);
    f.writeBuf := f.writeBuf[..offset] + buf + f.writeBuf[offset + |buf|..];
    if offset + |buf| > f.fileSize {
      f.fileSize := offset + |buf|;
    }
    WrittenExactly(old(Held(f)), old(f.writeBuf), Held(f), offset, buf);
  }

  lemma WrittenExactly(held: seq<byte>, was: seq<byte>, held': seq<byte>, offset: nat, data: seq<byte>)
    requires forall i :: 0 <= i < |held| ==> held[i] == BufferedByte(was, i)
    requires |held'| == MaxOf(|held|, offset + |data|) && data != []
    requires forall i :: 0 <= i < |held'| ==> held'[i] == if offset <= i < offset + |data| then data[i - offset] else BufferedByte(was, i)
    ensures held' == Written(held, offset, data) <==> forall i :: |held| <= i < offset && i < |was| ==> was[i] == 0
  {
    var want := Written(held, offset, data);
    if held' == want {
      forall i | |held| <= i < offset && i < |was| ensures was[i] == 0 {
        assert held'[i] == want[i];
      }
    }
  }

  /** The buffered branch of m65ftp_ftruncate for a length above zero; the size is kept in 32 bits. */
  method TruncateBuffered(f: FileInfo, length: nat)
    requires f.buffered && |f.writeBuf| <= BUFFER_LIMIT && length > 0
    modifies f`writeBuf, f`fileSize
    ensures |f.writeBuf| <= BUFFER_LIMIT && f.fileSize == length % 0x1_0000_0000
    ensures forall i: nat :: BufferedByte(f.writeBuf, i) == BufferedByte(old(f.writeBuf), i)
    ensures Held(f) == Resized(old(Held(f)), length) <==> length < 0x1_0000_0000 && old(ZeroGap(f, length))
    ensures old(ZeroTail(f)) && length < 0x1_0000_0000 ==>
              (ZeroTail(f) <==> forall i :: length <= i < old(f.fileSize) ==> old(Held(f))[i] == 0)
  {
    f.fileSize := length % 0x1_0000_0000;
    GrowBuffer(f, length);
    ghost var was := old(f.writeBuf);
    assert forall i :: 0 <= i < |was| ==> f.writeBuf[i] == was[i];
    forall i | length <= i < old(f.fileSize) ensures old(Held(f))[i] == BufferedByte(f.writeBuf, i) {
    }
  }

  /** The buffered branch for length 0: the buffer is given up, and an entry that names clusters is cleared at once. */
  method TruncateBufferedToZero(f: FileInfo, d: Disk)
    requires f.buffered && d.Valid() && f.EntryPlaced(d)
    modifies f, d`sectors, d`clusters, d`ioFaults
    ensures d.Valid() && f.buffered && f.AtStart() && f.firstCluster == 0 && f.EntryAgrees()
    ensures Held(f) == [] && ZeroTail(f) && f.writeBuf == [] && f.OnlyChanged(old(d.clusters), d.clusters, [])
    ensures f.HasEntry() ==> SameButFields(old(f.dirSectorBuf), f.dirSectorBuf, f.dirSectorOffset)
    ensures f.HasEntry() && d.ioFaults == old(d.ioFaults) ==> f.EntryOnDisk(d.clusters)
  {
    f.writeBuf, f.firstCluster, f.fileSize := [], 0, 0;
    f.writeCluster, f.writeIdx, f.sectorInCluster, f.lastOffset := 0, 0, 0, 0;
    f.currentCluster, f.currentClusterIdx := 0, 0;
    if f.dirSector >= 0 && f.dirSectorOffset >= 0 {
      f.SaveEntry(d, 0, 0);
    }
  }

  /**
   * A shrinking truncation leaves the bytes in the buffer, and a later write past
   * them makes them part of the file again: cut is what the file held in between.
   */
  method StaleBytesExample(f: FileInfo) returns (ghost cut: seq<byte>)
    requires f.buffered && f.writeBuf == [] && f.fileSize == 0
    modifies f`writeBuf, f`fileSize
    ensures cut == [7] && Held(f) == [7, 7, 7, 0, 9]
    ensures Written(cut, 4, [9]) == [7, 0, 0, 0, 9]
  {
    PwriteBuffered(f, [7, 7, 7], 0);
    assert forall i :: 0 <= i < 3 ==> BufferedByte(f.writeBuf, i) == Held(f)[i] == 7;
    TruncateBuffered(f, 1);
    cut := Held(f);
    assert forall i :: 0 <= i < 3 ==> BufferedByte(f.writeBuf, i) == 7;
    PwriteBuffered(f, [9], 4);
  }

  // ----- across the flush

  /** A flushed file as a byte string. */
  lemma FlushedContent(f: FileInfo, d: Disk, buf: seq<byte>)
    requires f.OpenDirect(d) && f.id in d.chains && BytesAre(d.clusters, d.chains[f.id], d.geo.sectorsPerCluster, buf, f.fileSize)
    ensures |FileContent(f, d)| == f.fileSize
    ensures forall i :: 0 <= i < f.fileSize ==> FileContent(f, d)[i] == BufferedByte(buf, i)
  {
    hide Times, Quot, Rem, IsChain;
  }

  /** A file on a new block is ready for direct calls. */
  lemma NewBlockReady(f: FileInfo, d: Disk, fat: Fat, chains: map<int, seq<nat>>, cl: Clusters, buf: seq<byte>)
    requires d.Valid() && d.fatFaults == 0 && f.AtStart() && 0 < f.fileSize < 0x1_0000_0000
    requires f.OnNewBlock(d, fat, chains, cl, buf)
    ensures Ready(f, d) && f.id in d.chains && f.firstCluster != 0
    ensures |d.chains[f.id]| == ClustersFor(f.fileSize, d.geo.sectorsPerCluster)
  {
    hide FatsHold, DataImage, Times, Quot, Rem, BytesAre, VR.Became, RunAt;
    DiskShape(d);
    OwnChain(d.fat, d.chains, f.id);
  }

  /** flush_write_buffer as a change of state: the file is direct, and its content is what the buffer held. */
  method Flush(f: FileInfo, d: Disk) returns (st: Status)
    requires d.Valid() && WellFormed(d.fat, d.chains) && d.fatFaults == 0 && f.buffered && f.id !in d.chains && f.EntryPlaced(d)
    requires 0 < f.fileSize && f.fileSize + d.geo.sectorsPerCluster * 512 - 1 < 0x1_0000_0000
    modifies f, d
    ensures d.Valid() && d.ioFaults <= old(d.ioFaults)
    ensures st.Done? ==> Ready(f, d) && FileContent(f, d) == old(Held(f)) && f.AtStart() && f.id in d.chains && f.firstCluster != 0
    ensures st.Done? ==> f.fileSize == old(f.fileSize) && |d.chains[f.id]| == ClustersFor(f.fileSize, d.geo.sectorsPerCluster)
    ensures st.Done? ==> VR.Reaches(VR.Tables(old(d.fat), old(d.chains)), VR.Tables(d.fat, d.chains), {f.id})
    ensures st.Done? && d.ioFaults == old(d.ioFaults) ==> Saved(f, d)
    ensures !st.Done? ==> unchanged(f) && d.chains == old(d.chains)
    ensures d.geo.sectorsPerCluster > 0
    ensures !SomeRun(old(d.fat), ClustersFor(old(f.fileSize), d.geo.sectorsPerCluster)) ==>
              st == SearchEnds(old(d.fat), ClustersFor(old(f.fileSize), d.geo.sectorsPerCluster)) && d.fat == old(d.fat)
    ensures SomeRun(old(d.fat), ClustersFor(old(f.fileSize), d.geo.sectorsPerCluster)) ==>
              st.Done? || (st.Failed? && d.ioFaults < old(d.ioFaults) && Leaked(old(d.fat), d.fat, d.chains))
  {
    hide FatsHold, DataImage, Times, Quot, Rem, BytesAre, VR.Reaches, VR.Became, Leaked, UsedKept, RunAt, SomeRun, NoneFree, FreeCount;
    ghost var buf, was := f.writeBuf, VR.Tables(d.fat, d.chains);
    DiskShape(d);
    st := f.FlushWriteBuffer(d);
    if st.Done? {
      NewBlockReady(f, d, was.fat, was.chains, old(d.clusters), buf);
      FlushedContent(f, d, buf);
      assert FileContent(f, d) == old(Held(f));
      VR.ReachesByStep(was, VR.Flush(f.id, f.firstCluster, ClustersFor(f.fileSize, d.geo.sectorsPerCluster)), VR.Tables(d.fat, d.chains), {f.id});
    }
  }

  lemma StartCursor(f: FileInfo, d: Disk)
    requires f.AtStart()
    ensures CursorAt(f, d, 0)
  {
  }

  /** Whatever is read before a flush is read after it. */
  method ReadAcrossFlush(f: FileInfo, d: Disk, count: nat, offset: nat) returns (st: Status, before: seq<byte>, after: seq<byte>)
    requires d.Valid() && WellFormed(d.fat, d.chains) && d.fatFaults == 0 && f.buffered && f.id !in d.chains && f.EntryPlaced(d)
    requires 0 < f.fileSize && f.fileSize + d.geo.sectorsPerCluster * 512 - 1 < 0x1_0000_0000 && d.geo.sectorsPerCluster > 0
    modifies f, d
    ensures d.ioFaults == old(d.ioFaults) && old(SomeRun(d.fat, ClustersFor(f.fileSize, d.geo.sectorsPerCluster))) ==> st.Done?
    ensures st.Done? && d.ioFaults == old(d.ioFaults) ==> after == before && |after| == ReadLength(old(f.fileSize), offset, count)
  {
    hide FatsHold, DataImage, Times, WellFormed, Content, FileInfo.EntryPlaced, FileInfo.EntryAgrees;
    before := f.PreadBuffered(count, offset);
    after := [];
    ghost var held := Held(f);
    st := Flush(f, d);
    if st.Done? {
      StartCursor(f, d);
      var _, answer := ReadCall(f, d, count, offset, 0);
      after := answer;
      assert held == Content(d.clusters, d.chains[f.id], d.geo.sectorsPerCluster, f.fileSize);
      if after != [] {
        assert after == held[offset..offset + |after|];
      }
    }
  }

  /** The sector at which a direct write to a freshly flushed file of n clusters starts, and its place in that sector. */
  function LandsAt(n: nat, spc: nat, offset: nat): (at: nat)
    ensures at == offset <==> offset / 512 <= Times(n, spc)
    ensures offset / 512 <= Times(n, spc) || at < offset
  {
    WalkSector(n, spc, offset) * 512 + offset % 512
  }

  /** data lies at byte `at` of the chain; everywhere else in the first |held| bytes the chain holds what was held. */
  ghost predicate Landed(cl: Clusters, ch: seq<nat>, spc: nat, held: seq<byte>, at: nat, data: seq<byte>) {
    && Holds(cl, ch, spc) && |held| <= Times(|ch|, spc) * 512 && (data != [] ==> at + |data| <= Times(|ch|, spc) * 512)
    && (forall i {:trigger ByteAt(cl, ch, spc, i)} :: at <= i < at + |data| ==> ByteAt(cl, ch, spc, i) == data[i - at])
    && (forall i {:trigger ByteAt(cl, ch, spc, i)} :: 0 <= i < |held| && !(at <= i < at + |data|) ==> ByteAt(cl, ch, spc, i) == held[i])
  }

  /** A direct write that follows a flush at once. */
  method PwriteFlushed(f: FileInfo, d: Disk, buf: seq<byte>, offset: nat) returns (st: Status, n: nat)
    requires Ready(f, d) && f.id in d.chains && f.AtStart() && f.firstCluster != 0 && buf != [] && offset + |buf| < 0x1_0000_0000
    requires d.geo.sectorsPerCluster > 0
    modifies f, d
    ensures d.Valid() && d.ioFaults <= old(d.ioFaults) && n <= |buf|
    ensures !st.Done? ==> (st.Failed? && d.ioFaults < old(d.ioFaults)) || Stuck(f, d, Write(buf, offset), st)
    ensures st.Done? && n < |buf| ==> NoneFree(d.fat) || d.ioFaults < old(d.ioFaults)
    ensures d.ioFaults == old(d.ioFaults)
            && FitsChain(LandsAt(|old(d.chains[f.id])|, d.geo.sectorsPerCluster, offset), |buf|, |old(d.chains[f.id])|, d.geo.sectorsPerCluster) ==>
              st.Done? && n == |buf|
    ensures st.Done? ==> 0 < n && f.id in d.chains && f.fileSize == MaxOf(old(f.fileSize), offset + n)
    ensures st.Done? ==>
              Landed(d.clusters, d.chains[f.id], d.geo.sectorsPerCluster, old(FileContent(f, d)),
                     LandsAt(|old(d.chains[f.id])|, d.geo.sectorsPerCluster, offset), buf[..n])
    ensures st.Done? && offset <= old(f.fileSize) ==>
              Ready(f, d) && FileContent(f, d) == Written(old(FileContent(f, d)), offset, buf[..n])
    ensures st.Failed? ==> n == 0 && unchanged(f) && Ready(f, d) && FileContent(f, d) == old(FileContent(f, d))
  {
    hide FatsHold, DataImage, Disjoint, Covered, Times, Quot, Rem, ByteAt, Grown, FileInfo.EntryOnDisk, Splice,
         Written, VR.Reaches, Landed, LandsAt, Spliced, FitsChain, FirstBatch, WellFormed, FileInfo.EntryPlaced, FileInfo.EntryAgrees,
         Holds, IsChain, Content, FileInfo.WritePosition, FileInfo.OnlyChanged, GrewTo, WriteEnds, PastEnd, SomeRun, NoneFree;
    ghost var cl, ch, size, spc := d.clusters, d.chains[f.id], f.fileSize, d.geo.sectorsPerCluster;
    ghost var held := FileContent(f, d);
    StartsWhereWalked(f, |ch|, spc, offset);
    st, n := f.PwriteDirect(d, buf, offset);
    if st.Done? {
      OwnChain(d.fat, d.chains, f.id);
      SplicedLanded(cl, ch, d.clusters, d.chains[f.id], spc, LandsAt(|ch|, spc, offset), buf[..n], size);
      if offset <= size {
        AtOffset(|ch|, spc, size, offset);
        SplicedContent(cl, ch, d.clusters, d.chains[f.id], spc, offset, buf[..n], size);
        SpliceIsWritten(held, offset, buf[..n]);
      }
    } else if st.Failed? {
      OwnChain(d.fat, d.chains, f.id);
      NothingLanded(cl, ch, d.clusters, d.chains[f.id], spc, LandsAt(|ch|, spc, offset), size);
    }
  }

  lemma NothingLanded(cl0: Clusters, ch0: seq<nat>, cl: Clusters, ch: seq<nat>, spc: nat, at: nat, size: nat)
    requires Spliced(cl0, ch0, cl, ch, spc, at, []) && size <= Times(|ch0|, spc) * 512
    ensures Holds(cl, ch, spc) && ch0 <= ch && size <= Times(|ch|, spc) * 512
    ensures Content(cl, ch, spc, size) == Content(cl0, ch0, spc, size)
  {
    hide Times, ByteAt;
  }

  lemma StartsWhereWalked(f: FileInfo, n: nat, spc: nat, offset: nat)
    requires f.AtStart()
    ensures f.WritePosition(n, spc, offset) == LandsAt(n, spc, offset)
  {
  }

  lemma AtOffset(n: nat, spc: nat, size: nat, offset: nat)
    requires offset <= size <= Times(n, spc) * 512
    ensures LandsAt(n, spc, offset) == offset
  {
    hide Times;
  }

  lemma SplicedLanded(cl0: Clusters, ch0: seq<nat>, cl: Clusters, ch: seq<nat>, spc: nat, at: nat, data: seq<byte>, size: nat)
    requires Spliced(cl0, ch0, cl, ch, spc, at, data) && size <= Times(|ch0|, spc) * 512
    ensures Landed(cl, ch, spc, Content(cl0, ch0, spc, size), at, data) && Holds(cl, ch, spc) && ch0 <= ch
    ensures size <= Times(|ch|, spc) * 512 && (data != [] ==> at + |data| <= Times(|ch|, spc) * 512)
  {
    hide Times, ByteAt;
  }

  /**
   * m65ftp_pwrite on a buffered file.  Within the limit it changes the buffer; past
   * it, the buffer is flushed and the write goes on directly.  What the file held
   * stays, and the data lies at its offset exactly when the offset is at most one
   * sector past the flushed clusters; a write that starts in the file or at its end
   * gives the bytes that were written.
   */
  method Pwrite(f: FileInfo, d: Disk, buf: seq<byte>, offset: nat) returns (st: Status, n: nat)
    requires d.Valid() && WellFormed(d.fat, d.chains) && d.fatFaults == 0 && f.buffered && f.id !in d.chains && f.EntryPlaced(d)
    requires |f.writeBuf| <= BUFFER_LIMIT && offset + |buf| < 0x1_0000_0000 && d.geo.sectorsPerCluster > 0
    requires buf != [] && offset + |buf| > BUFFER_LIMIT ==>
               0 < f.fileSize && f.fileSize + d.geo.sectorsPerCluster * 512 - 1 < 0x1_0000_0000
    modifies f, d
    ensures d.Valid() && (st.Done? ==> n <= |buf|)
    ensures buf == [] ==> st == Done && n == 0 && unchanged(f) && unchanged(d)
    ensures buf != [] && offset + |buf| <= BUFFER_LIMIT ==>
              st == Done && n == |buf| && f.buffered && (Held(f) == Written(old(Held(f)), offset, buf) <==> old(ZeroGap(f, offset)))
    ensures buf != [] && offset + |buf| <= BUFFER_LIMIT ==>
              && f.fileSize == MaxOf(old(f.fileSize), offset + |buf|) && d.sectors == old(d.sectors)
              && forall i :: 0 <= i < f.fileSize ==>
                   Held(f)[i] == if offset <= i < offset + |buf| then buf[i - offset] else BufferedByte(old(f.writeBuf), i)
    ensures buf != [] && offset + |buf| > BUFFER_LIMIT && !st.Done? ==>
              || (st.Failed? && d.ioFaults < old(d.ioFaults))
              || (d.fat == old(d.fat) && st == SearchEnds(d.fat, ClustersFor(old(f.fileSize), d.geo.sectorsPerCluster)))
              || Stuck(f, d, Write(buf, offset), st)
    ensures buf != [] && offset + |buf| > BUFFER_LIMIT && d.ioFaults == old(d.ioFaults) ==>
              var n0 := ClustersFor(old(f.fileSize), d.geo.sectorsPerCluster);
              SomeRun(old(d.fat), n0) && FitsChain(LandsAt(n0, d.geo.sectorsPerCluster, offset), |buf|, n0, d.geo.sectorsPerCluster) ==>
                st.Done? && n == |buf|
    ensures buf != [] && offset + |buf| > BUFFER_LIMIT && st.Done? ==>
              0 < n && f.id in d.chains && f.fileSize == MaxOf(old(f.fileSize), offset + n)
    ensures buf != [] && offset + |buf| > BUFFER_LIMIT && st.Done? ==>
              Landed(d.clusters, d.chains[f.id], d.geo.sectorsPerCluster, old(Held(f)),
                     LandsAt(ClustersFor(old(f.fileSize), d.geo.sectorsPerCluster), d.geo.sectorsPerCluster, offset), buf[..n])
    ensures buf != [] && offset + |buf| > BUFFER_LIMIT && st.Done? && offset <= old(f.fileSize) ==>
              Ready(f, d) && FileContent(f, d) == Written(old(Held(f)), offset, buf[..n])
    ensures buf != [] && offset + |buf| > BUFFER_LIMIT && st.Failed? ==>
              n == 0 && if f.buffered then unchanged(f) else Ready(f, d) && FileContent(f, d) == old(Held(f))
  {
    hide FatsHold, DataImage, Times, Quot, Rem, Content, FileInfo.EntryPlaced, FileInfo.EntryAgrees, IsChain, Splice,
         Written, Covered, Disjoint, Landed, LandsAt, VR.Reaches, Leaked;
    if buf == [] {
      return Done, 0;
    }
    if offset + |buf| <= BUFFER_LIMIT {
      PwriteBuffered(f, buf, offset);
      return Done, |buf|;
    }
    st := Flush(f, d);
    n := 0;
    if st.Done? {
      st, n := PwriteFlushed(f, d, buf, offset);
    }
  }

  /**
   * The same on an empty buffered file: the flush leaves it without a chain, and the
   * write goes to the place of cluster 0 until that is used up.
   */
  method PwriteEmpty(f: FileInfo, d: Disk, buf: seq<byte>, offset: nat) returns (end: Chainless.ChainlessEnd, n: nat, ghost flushed: seq<Sector>)
    requires d.Valid() && WellFormed(d.fat, d.chains) && d.fatFaults == 0 && f.buffered && f.id !in d.chains && f.EntryPlaced(d)
    requires d.ioFaults == 0 && f.fileSize == 0 && buf != [] && offset + |buf| > BUFFER_LIMIT && offset + |buf| < 0x1_0000_0000
    modifies f, d
    ensures !end.Finished? && n == if end.Beyond? && offset < d.geo.ClusterSize() then d.geo.ClusterSize() - offset else 0
    ensures n <= |buf| && d.chains == old(d.chains) && d.fat == old(d.fat) && DataImage(d.geo, d.sectors, d.clusters)
    ensures !f.buffered && f.firstCluster == 0 && f.fileSize == 0 && f.EntryAgrees() && f.OnlyChanged(old(d.clusters), d.clusters, [])
    ensures Chainless.FatsAgreeWhen(d, flushed, 512 * d.geo.BelowData() + offset, buf[..n])
  {
    hide FatsHold, DataImage, WellFormed, Times, Quot, Rem, Chainless.FatsAgreeWhen, FileInfo.EntryOnDisk;
    SmallClusters(d);
    var st := f.FlushWriteBuffer(d);
    flushed := d.sectors;
    end, n := Chainless.WriteWithoutChain(f, d, buf, offset);
  }

  lemma SmallClusters(d: Disk)
    requires d.Valid()
    ensures 0 < d.geo.ClusterSize() < BUFFER_LIMIT && d.geo.ClusterSize() == d.geo.sectorsPerCluster * 512
  {
  }

  lemma SpliceIsWritten(s: seq<byte>, offset: nat, data: seq<byte>)
    requires offset <= |s|
    ensures Splice(s, offset, data) == Written(s, offset, data)
  {
  }

  // ----- the size in 32 bits

  /** The number of clusters flush_write_buffer asks for: the sum before the division wraps. */
  function FlushNeeds(size: nat, spc: nat): nat
    requires spc > 0
  {
    Quot((size + spc * 512 - 1) % 0x1_0000_0000, spc * 512)
  }

  /** It is the number the file needs exactly when the sum fits; otherwise it is 0. */
  lemma FlushSizeExactly(size: nat, spc: nat)
    requires 0 < size < 0x1_0000_0000 && 1 <= spc < 256
    ensures FlushNeeds(size, spc) == ClustersFor(size, spc) <==> size + spc * 512 - 1 < 0x1_0000_0000
    ensures size + spc * 512 - 1 >= 0x1_0000_0000 ==> FlushNeeds(size, spc) == 0
  {
    ClustersNeeded(size, spc);
  }
}
