/**
 * Calls that go wrong on one descriptor because reads and writes share the last
 * offset but not the place in the chain.  Each is a run of the modelled calls.
 */
module Landings {
  import opened Bytes
  import opened Chains
  import opened Volume
  import opened Contents
  import opened Arith
  import opened Splicing
  import opened FileLayer
  import opened Sessions
  import Chainless

  /** A file as it is after opening for writing, flushing or truncating. */
  ghost predicate Fresh(f: FileInfo, d: Disk, size: nat)
    reads f, d
  {
    Ready(f, d) && f.id in d.chains && f.AtStart() && d.geo.sectorsPerCluster > 0 && f.fileSize >= size
  }

  /** A direct write that stays within the file, wherever it lands. */
  method WriteWithin(f: FileInfo, d: Disk, buf: seq<byte>, offset: nat, ghost at: nat) returns (st: Status, n: nat)
    requires Ready(f, d) && f.id in d.chains && buf != [] && offset + |buf| <= f.fileSize && at + |buf| <= f.fileSize
    requires f.WritePosition(|d.chains[f.id]|, d.geo.sectorsPerCluster, offset) == at
    modifies f, d
    ensures st.Done? ==> Ready(f, d) && f.id in d.chains && f.fileSize == old(f.fileSize)
    ensures st.Done? ==> 0 < n <= |buf| && f.lastOffset == offset + n && CursorAt(f, d, CeilSectors(at + n))
    ensures st.Done? ==> FileContent(f, d) == Splice(old(FileContent(f, d)), at, buf[..n])
    ensures d.ioFaults == old(d.ioFaults) ==> st.Done? && n == |buf|
    ensures f.currentClusterIdx == old(f.currentClusterIdx) && (st.Done? ==> f.writeCluster != 0) && d.ioFaults <= old(d.ioFaults)
  {
    hide FatsHold, DataImage, Disjoint, Covered, Times, Quot, Rem, ByteAt, Grown, Splice, FileInfo.WritePosition;
    ghost var cl, ch, size, spc := d.clusters, d.chains[f.id], f.fileSize, d.geo.sectorsPerCluster;
    st, n := f.PwriteDirect(d, buf, offset);
    if st.Done? {
      OwnChain(d.fat, d.chains, f.id);
      SplicedContent(cl, ch, d.clusters, d.chains[f.id], spc, at, buf[..n], size);
    }
  }

  /** A read moves the offset a write goes on from, but not its place: the data meant for 512 lands at 0. */
  method ReadThenWrite(f: FileInfo, d: Disk, b: byte) returns (st: Status)
    requires Fresh(f, d, 1024) && d.ioFaults == 0
    modifies f, d
    ensures st.Done? && Ready(f, d) && FileContent(f, d) == Splice(old(FileContent(f, d)), 0, [b])
  {
    hide FatsHold, DataImage, WellFormed, Quot, Rem, ByteAt, Content, Splice, BytesFrom, FileInfo.EntryPlaced,
         FileInfo.EntryAgrees;
    FirstUsed(f, d);
    ghost var content := FileContent(f, d);
    var _, _ := f.PreadDirect(d, 512, 0);
    assert f.lastOffset == 512 && f.Resumes(512) && FileContent(f, d) == content;
    assert !Allowed(f, d.geo.sectorsPerCluster, 0, Write([b], 512));
    var n;
    st, n := WriteWithin(f, d, [b], 512, 0);
    assert [b][..n] == [b];
  }

  /** Two writes, the second where the first ended, inside a sector: what is meant for byte 100 lands at 612. */
  method UnalignedWrites(f: FileInfo, d: Disk, first: seq<byte>, second: seq<byte>) returns (st: Status, n: nat)
    requires Fresh(f, d, 1024) && |first| == |second| == 100 && d.ioFaults == 0
    modifies f, d
    ensures st.Done? && n == 100 && Ready(f, d)
    ensures FileContent(f, d) == Splice(Splice(old(FileContent(f, d)), 0, first), 612, second)
  {
    hide FatsHold, DataImage, WellFormed, Quot, Rem, ByteAt, Content, Splice, FileInfo.EntryPlaced, FileInfo.EntryAgrees;
    FirstUsed(f, d);
    st, n := WriteWithin(f, d, first, 0, 0);
    assert first[..100] == first && f.Resumes(100) && CursorAt(f, d, 1);
    assert !Allowed(f, d.geo.sectorsPerCluster, 1, Write(second, 100));
    assert |FileContent(f, d)| == f.fileSize;
    st, n := WriteWithin(f, d, second, 100, 612);
    assert second[..100] == second;
  }

  /** A read far into the file, a write at its start, and a read behind that write: the answer comes from the second cluster. */
  method WriteBetweenReads(f: FileInfo, d: Disk, b: byte) returns (st: Status, answer: seq<byte>)
    requires Fresh(f, d, d.geo.sectorsPerCluster * 512 + 2) && d.ioFaults == 0
    modifies f, d
    ensures st.Done? && Ready(f, d) && FileContent(f, d) == Splice(old(FileContent(f, d)), 0, [b])
    ensures answer == [old(FileContent(f, d))[d.geo.sectorsPerCluster * 512 + 1]]
  {
    hide FatsHold, DataImage, WellFormed, Quot, Rem, Times, ByteAt, Content, Splice, BytesFrom, FileInfo.EntryPlaced,
         FileInfo.EntryAgrees, ByteFrom;
    FirstUsed(f, d);
    ghost var content, far := FileContent(f, d), d.geo.sectorsPerCluster * 512;
    assert |content| == f.fileSize;
    answer := [];
    SecondCluster(d.geo.sectorsPerCluster);
    var _, _ := f.PreadDirect(d, 1, d.geo.sectorsPerCluster * 512);
    assert f.currentClusterIdx == 1 && f.lastOffset == far + 1 && FileContent(f, d) == content;
    var n;
    st, n := WriteWithin(f, d, [b], 0, 0);
    assert [b][..n] == [b] && f.lastOffset == 1;
    SplicedByte(content, b, far + 1);
    assert !Allowed(f, d.geo.sectorsPerCluster, 1, Read(1, 1));
    answer := ReadFromSecond(f, d);
  }

  /** A read that goes on from the second cluster although its offset lies in the first. */
  method ReadFromSecond(f: FileInfo, d: Disk) returns (answer: seq<byte>)
    requires Ready(f, d) && f.id in d.chains && d.geo.sectorsPerCluster > 0 && d.ioFaults == 0
    requires f.currentClusterIdx == 1 && f.lastOffset == 1 && f.fileSize >= d.geo.sectorsPerCluster * 512 + 2
    modifies f`currentCluster, f`currentClusterIdx, f`lastOffset, d`ioFaults
    ensures Ready(f, d) && FileContent(f, d) == old(FileContent(f, d)) && |FileContent(f, d)| == f.fileSize
    ensures answer == [FileContent(f, d)[d.geo.sectorsPerCluster * 512 + 1]]
  {
    hide FatsHold, DataImage, WellFormed, Quot, Rem, Times, ByteAt, Content, BytesFrom, FileInfo.EntryPlaced, FileInfo.EntryAgrees, ByteFrom;
    assert f.StartIndex(1) == 1 && ReadLength(f.fileSize, 1, 1) == 1;
    var _, data := f.PreadDirect(d, 1, 1);
    answer := data;
    FromSecondCluster(d.clusters, d.chains[f.id], d.geo.sectorsPerCluster, f.fileSize, answer);
  }

  /** Cut to one byte and grown to three again, a direct file shows its old third byte and not a zero. */
  method CutAndGrown(f: FileInfo, d: Disk) returns (st: Status)
    requires Fresh(f, d, 3)
    modifies f, d
    ensures st.Done? && Ready(f, d) && |FileContent(f, d)| == 3 && FileContent(f, d)[2] == old(FileContent(f, d))[2]
    ensures |Resized(Resized(old(FileContent(f, d)), 1), 3)| == 3 && Resized(Resized(old(FileContent(f, d)), 1), 3)[2] == 0
  {
    hide FatsHold, DataImage, WellFormed, Quot, Rem, Times, ByteAt, FileInfo.EntryPlaced, FileInfo.EntryAgrees, IsChain;
    ghost var chains, cl, spc := d.chains, d.clusters, d.geo.sectorsPerCluster;
    OneCluster(spc);
    DirectShape(f, d);
    st := TruncateCall(f, d, 1);
    ghost var cut := d.clusters;
    KeptThree(f, d, chains[f.id], cl);
    DirectShape(f, d);
    st := TruncateCall(f, d, 3);
    ShortenedContent(f, d, map[f.id := chains[f.id][..1]], cut, 1, 3);
  }

  /**
   * Truncated to zero and written to, a file gets a size but no cluster: the byte is
   * put into the sector two clusters below the data area.  If that is a sector of a
   * FAT which did not begin with this byte, the two FATs differ.
   */
  method WriteAfterTruncate(f: FileInfo, d: Disk, b: byte) returns (st: Status, end: Chainless.ChainlessEnd, ghost cut: seq<Sector>)
    requires Fresh(f, d, 1) && d.ioFaults == 0 && d.geo.BelowData() >= 0
    modifies f, d
    ensures st.Done? && end.Finished? && f.firstCluster == 0 && f.fileSize == 1 && f.EntryAgrees() && f.id !in d.chains
    ensures f.HasEntry() ==> f.EntryOnDisk(d.clusters)
    ensures Chainless.FatsAgreeWhen(d, cut, 512 * d.geo.BelowData(), [b])
    ensures d.geo.BelowData() < |cut| && (Chainless.FatBytesKept(d.geo, cut, 512 * d.geo.BelowData(), [b]) <==>
                                           d.geo.BelowData() < d.geo.Fat1() || cut[d.geo.BelowData()][0] == b)
  {
    hide FatsHold, DataImage, WellFormed, Quot, Rem, Times, ByteAt, FileInfo.EntryOnDisk, Chainless.FatsAgreeWhen;
    DiskShape(d);
    NeedsClusters(0, d.geo.sectorsPerCluster);
    st := f.TruncateDirect(d, 0);
    Chainless.DiskSize(d);
    cut := d.sectors;
    var n;
    end, n := Chainless.WriteWithoutChain(f, d, [b], 0);
    assert [b][..n] == [b];
    OneByteKept(d.geo, cut, b);
  }

  lemma OneByteKept(g: Geometry, disk: seq<Sector>, b: byte)
    requires 0 <= g.BelowData() < |disk|
    ensures Chainless.FatBytesKept(g, disk, 512 * g.BelowData(), [b]) <==> g.BelowData() < g.Fat1() || disk[g.BelowData()][0] == b
  {
    if Chainless.FatBytesKept(g, disk, 512 * g.BelowData(), [b]) && g.BelowData() >= g.Fat1() {
      assert disk[g.BelowData()][0] == b;
    }
  }

  lemma OneCluster(spc: nat)
    requires spc > 0
    ensures ClustersFor(1, spc) == ClustersFor(3, spc) == 1 && 3 <= Times(1, spc) * 512
  {
    var z := spc * 512;
    assert Quot(0, z) == Quot(2, z) == 0 && Quot(z, z) == Quot(0, z) + 1 && Quot(z + 2, z) == Quot(2, z) + 1;
    TimesNext(0, spc);
  }

  lemma DirectShape(f: FileInfo, d: Disk)
    requires Ready(f, d) && f.id in d.chains
    ensures |d.chains[f.id]| > 0 && Holds(d.clusters, d.chains[f.id], d.geo.sectorsPerCluster)
  {
  }

  lemma KeptThree(f: FileInfo, d: Disk, ch: seq<nat>, cl: Clusters)
    requires Ready(f, d) && f.id in d.chains && |ch| > 0 && d.chains[f.id] == ch[..1] && f.OnlyChanged(cl, d.clusters, [])
    requires Holds(cl, ch, d.geo.sectorsPerCluster) && 3 <= Times(1, d.geo.sectorsPerCluster) * 512
    ensures 3 <= Times(|ch|, d.geo.sectorsPerCluster) * 512
    ensures SameContent(cl, ch, d.clusters, ch[..1], d.geo.sectorsPerCluster, 3)
  {
    hide FatsHold, DataImage, Times, Quot, Rem, ByteAt;
    PrefixContent(cl, ch, 1, d.geo.sectorsPerCluster, 3);
    TimesMono(1, |ch|, d.geo.sectorsPerCluster);
    assert forall c :: c in ch[..1] && c < |cl| ==> d.clusters[c] == cl[c];
    SameContentFrame(cl, ch, cl, ch[..1], d.geo.sectorsPerCluster, 3, d.clusters);
  }

  lemma SecondCluster(spc: nat)
    requires spc > 0
    ensures Quot(spc * 512 / 512, spc) == 1 && Quot(0, spc) == 0 && Rem(0, spc) == 0
    ensures Quot((spc * 512 + 1) / 512, spc) == 1 && Rem((spc * 512 + 1) / 512, spc) == 0 && (spc * 512 + 1) % 512 == 1
  {
  }

  lemma SplicedByte(s: seq<byte>, b: byte, i: nat)
    requires 0 < i < |s|
    ensures |Splice(s, 0, [b])| == |s| && Splice(s, 0, [b])[i] == s[i]
  {
  }

  lemma FromSecondCluster(cl: Clusters, ch: seq<nat>, spc: nat, size: nat, data: seq<byte>)
    requires spc > 0 && Holds(cl, ch, spc) && spc * 512 + 2 <= size <= Times(|ch|, spc) * 512
    requires |data| == 1 && BytesFrom(cl, ch, spc, 1, 1, data)
    ensures data == [Content(cl, ch, spc, size)[spc * 512 + 1]]
  {
    hide Quot, Rem, Times;
    SecondCluster(spc);
    var far := spc * 512 + 1;
    assert data[0] == ByteFrom(cl, ch, spc, 1, 1);
    QuotBound(far / 512, |ch|, spc);
    QuotBound(0, |ch|, spc);
    assert Content(cl, ch, spc, size)[far] == ByteAt(cl, ch, spc, far);
  }

  lemma FirstUsed(f: FileInfo, d: Disk)
    requires Ready(f, d) && f.id in d.chains
    ensures f.firstCluster >= 2
  {
  }
}
