/**
 * Runs of calls on one file: any number of direct writes, truncations and reads
 * change the file as a byte string would, and the reads return its bytes.
 */
module Sessions {
  import opened Bytes
  import opened Chains
  import opened Volume
  import opened Allocator
  import opened Contents
  import opened Arith
  import opened DirFields
  import opened Splicing
  import opened Growing
  import opened FileLayer
  import VR = VolumeRuns

  datatype Call = Write(buf: seq<byte>, offset: nat) | Truncate(length: nat) | Read(count: nat, offset: nat)

  /** What an answer to a read must be: the bytes of the file, all that were asked for unless an error cut them short. */
  ghost predicate Answers(content: seq<byte>, count: nat, offset: nat, answer: seq<byte>, whole: bool) {
    && |answer| <= ReadLength(|content|, offset, count)
    && (answer != [] ==> offset + |answer| <= |content| && answer == content[offset..offset + |answer|])
    && (whole ==> |answer| == ReadLength(|content|, offset, count))
  }

  /**
   * What a call may do to the content: splice a non-empty prefix of the data in, keep what
   * lies below the length, or leave it alone and return a part of it.  fat is the
   * FAT afterwards: a write is cut short only by a full volume or an error.  A call
   * that fails changes nothing, and without an error it fails for want of clusters only.
   */
  ghost predicate Follows(before: seq<byte>, call: Call, st: Status, answer: seq<byte>, after: seq<byte>, fat: Fat, whole: bool) {
    if !st.Done? then st.Failed? && after == before && answer == [] && (whole ==> FailsWell(before, call, fat))
    else match call
      case Write(buf, offset) =>
        if buf == [] then after == before
        else offset <= |before| && exists n :: 0 < n <= |buf| && (n < |buf| ==> NoneFree(fat) || !whole) && after == Splice(before, offset, buf[..n])
      case Truncate(length) =>
        |after| == length && after[..Least(|before|, length)] == before[..Least(|before|, length)]
      case Read(count, offset) =>
        after == before && Answers(before, count, offset, answer, whole) && (answer == [] ==> ReadLength(|before|, offset, count) == 0)
  }

  /** Why a call fails without an error: the volume is full, or an empty file has no chain that could be lengthened. */
  ghost predicate FailsWell(before: seq<byte>, call: Call, fat: Fat) {
    match call
    case Write(buf, _) => buf != [] && NoneFree(fat)
    case Truncate(length) => length > |before| && (NoneFree(fat) || before == [])
    case Read(_, _) => false
  }

  /** contents is a run of the calls, with how each ended, the answers to its reads and the FAT after every call. */
  ghost predicate IsRun(contents: seq<seq<byte>>, calls: seq<Call>, outcomes: seq<Status>, answers: seq<seq<byte>>, fats: seq<Fat>, whole: bool) {
    && |contents| == |calls| + 1 && |outcomes| == |answers| == |calls| == |fats|
    && forall i {:trigger contents[i]} :: 0 <= i < |calls| ==>
         Follows(contents[i], calls[i], outcomes[i], answers[i], contents[i + 1], fats[i], whole)
  }

  ghost function FileContent(f: FileInfo, d: Disk): seq<byte>
    requires f.OpenDirect(d)
    reads f`buffered, f`firstCluster, f`fileSize, f`dirSectorBuf, d`fat, d`chains, d`clusters
  {
    if f.id in d.chains then Content(d.clusters, d.chains[f.id], d.geo.sectorsPerCluster, f.fileSize) else []
  }

  /** The remembered write position is sector `cursor` of the file. */
  ghost predicate CursorAt(f: FileInfo, d: Disk, cursor: nat)
    reads f`writeCluster, f`writeIdx, f`sectorInCluster
  {
    f.writeCluster != 0 ==> Times(f.writeIdx, d.geo.sectorsPerCluster) + f.sectorInCluster == cursor
  }

  /** What holds of a file between the calls of a session. */
  ghost predicate Ready(f: FileInfo, d: Disk)
    reads f, d
  {
    && d.Valid() && WellFormed(d.fat, d.chains) && d.fatFaults == 0
    && f.OpenDirect(d) && f.WriteCursor(d) && (f.id in d.chains ==> f.Remembers(d)) && f.fileSize < 0x1_0000_0000
  }

  /** The file's directory sector on disk is the descriptor's copy of it. */
  ghost predicate Saved(f: FileInfo, d: Disk)
    reads f`dirSectorBuf, d`clusters
  {
    f.HasEntry() ==> f.EntryOnDisk(d.clusters)
  }

  /**
   * The calls the driver carries out correctly.  cursor is the sector in which the
   * last write ended, rounded up, or 0 if there was none since the file was opened,
   * flushed or truncated.  A write must start in the file or at its end; if it
   * starts where the last call, of either kind, ended, that must also be the
   * cursor.  A read that starts there must not have been left in a later cluster.
   */
  predicate Allowed(f: FileInfo, spc: nat, cursor: nat, call: Call)
    requires spc > 0
    reads f`firstCluster, f`fileSize, f`lastOffset, f`writeCluster, f`currentClusterIdx
  {
    match call
    case Write(buf, offset) =>
      buf != [] ==>
        && offset + |buf| < 0x1_0000_0000 && f.firstCluster != 0
        && offset <= f.fileSize && (f.Resumes(offset) ==> cursor == offset / 512)
    case Truncate(length) => length < 0x1_0000_0000
    case Read(count, offset) =>
      count > 0 && offset < f.fileSize && offset == f.lastOffset ==> f.currentClusterIdx <= Quot(offset / 512, spc)
  }

  /** The call finds all its clusters on the file's chain. */
  ghost predicate NeedsNoClusters(f: FileInfo, d: Disk, call: Call)
    requires d.geo.sectorsPerCluster > 0
    reads d`chains
  {
    match call
    case Write(buf, offset) =>
      buf == [] || (f.id in d.chains && FitsChain(offset, |buf|, |d.chains[f.id]|, d.geo.sectorsPerCluster))
    case Truncate(length) => ClustersFor(length, d.geo.sectorsPerCluster) <= f.ChainLength(d.chains)
    case Read(_, _) => true
  }

  /**
   * Why a call that no error has stopped is not done: there are no clusters for it.
   * It has failed on a full volume, or because the file has no chain to lengthen; or
   * something is free, but no run of the size it searches for.
   */
  ghost predicate Stuck(f: FileInfo, d: Disk, call: Call, st: Status)
    requires d.geo.sectorsPerCluster > 0
    reads d`fat, d`chains
  {
    match call
    case Write(buf, _) =>
      if st.Failed? then NoneFree(d.fat)
      else !NoneFree(d.fat) && exists k :: 0 < k <= |buf| && !SomeRun(d.fat, FirstBatch(k, d.geo.sectorsPerCluster))
    case Truncate(length) =>
      if st.Failed? then NoneFree(d.fat) || f.id !in d.chains
      else !NoneFree(d.fat) && !SomeRun(d.fat, ClustersFor(length, d.geo.sectorsPerCluster))
    case Read(_, _) => false
  }

  /**
   * A write within the file is allowed exactly when the file has a chain and the
   * write puts its data at its offset.
   */
  lemma AllowedWritesExactly(f: FileInfo, d: Disk, cursor: nat, buf: seq<byte>, offset: nat)
    requires Ready(f, d) && CursorAt(f, d, cursor)
    requires buf != [] && offset + |buf| < 0x1_0000_0000 && offset <= f.fileSize
    ensures d.geo.sectorsPerCluster > 0
    ensures Allowed(f, d.geo.sectorsPerCluster, cursor, Write(buf, offset)) <==>
            f.id in d.chains && f.WritePosition(|d.chains[f.id]|, d.geo.sectorsPerCluster, offset) == offset
  {
    hide Quot, Rem, Times, FatsHold, DataImage;
    DiskShape(d);
    if f.id in d.chains {
      WritesAtOffsetExactly(f, d, offset);
      OwnChain(d.fat, d.chains, f.id);
      assert d.chains[f.id][0] in d.chains[f.id];
    }
  }

  /** A read within the file is allowed exactly when it starts in the cluster of its offset. */
  lemma AllowedReadsExactly(f: FileInfo, d: Disk, cursor: nat, count: nat, offset: nat)
    requires Ready(f, d) && f.id in d.chains && count > 0 && offset < f.fileSize
    ensures d.geo.sectorsPerCluster > 0
    ensures var ch, spc := d.chains[f.id], d.geo.sectorsPerCluster;
            && Quot(offset / 512, spc) < |ch| && ReadIndex(f.StartIndex(offset), offset, spc) < |ch|
            && (Allowed(f, spc, cursor, Read(count, offset)) <==>
                ch[ReadIndex(f.StartIndex(offset), offset, spc)] == ch[Quot(offset / 512, spc)])
  {
    ReadsAtOffsetExactly(f, d, offset);
  }

  /**
   * After writes that end on sector boundaries, going on from the remembered
   * cluster and sector is the same as walking the chain from its start: both give
   * the sector of the offset, or the end of the chain when it must be extended.
   */
  lemma ResumeEqualsWalk(f: FileInfo, d: Disk, offset: nat)
    requires Ready(f, d) && f.id in d.chains && f.Resumes(offset) && offset % 512 == 0
    requires CursorAt(f, d, CeilSectors(offset))
    ensures f.StartSector(|d.chains[f.id]|, d.geo.sectorsPerCluster, offset) == offset / 512
    ensures WalkSector(|d.chains[f.id]|, d.geo.sectorsPerCluster, offset) == offset / 512
  {
    hide Quot, Rem;
    DiskShape(d);
    TimesMono(f.writeIdx + 1, |d.chains[f.id]|, d.geo.sectorsPerCluster);
    TimesNext(f.writeIdx, d.geo.sectorsPerCluster);
  }

  /** A call on f leaves the chains of all other owners and every cluster but f's own and its directory sector. */
  ghost predicate Isolated(f: FileInfo, d: Disk, chains: map<int, seq<nat>>, cl: Clusters)
    reads f`dirSectorBuf, d`chains, d`clusters
  {
    && d.chains - {f.id} == chains - {f.id}
    && f.OnlyChanged(cl, d.clusters, if f.id in d.chains then d.chains[f.id] else [])
  }

  /** The chains of all other owners and every cluster on them are as before. */
  ghost predicate OthersUntouched(f: FileInfo, d: Disk, chains: map<int, seq<nat>>, cl: Clusters)
    reads d`chains, d`clusters
  {
    && d.chains - {f.id} == chains - {f.id} && |d.clusters| == |cl|
    && forall o, c :: o in chains && o != f.id && c in chains[o] && c < |cl| ==> d.clusters[c] == cl[c]
  }

  /** The same, except that f's directory sector may have been written. */
  ghost predicate OthersSpared(f: FileInfo, d: Disk, chains: map<int, seq<nat>>, cl: Clusters)
    reads f`dirSectorBuf, d`chains, d`clusters
  {
    && d.chains - {f.id} == chains - {f.id} && |d.clusters| == |cl|
    && (forall o, c :: o in chains && o != f.id && c in chains[o] && c < |cl| && !(f.HasEntry() && c == f.dirCluster) ==> d.clusters[c] == cl[c])
    && (forall o :: o in chains && o != f.id && f.HasEntry() && f.dirCluster in chains[o] && f.dirCluster < |cl| && f.dirSlot < |cl[f.dirCluster]| ==>
          d.clusters[f.dirCluster] == cl[f.dirCluster] || d.clusters[f.dirCluster] == cl[f.dirCluster][f.dirSlot := f.dirSectorBuf])
  }

  lemma IsolatedOthers(f: FileInfo, d: Disk, chains: map<int, seq<nat>>, cl: Clusters)
    requires Isolated(f, d, chains, cl) && WellFormed(d.fat, d.chains)
    ensures OthersSpared(f, d, chains, cl)
  {
    hide AllChains, Covered;
    forall o, c | o in chains && o != f.id && c in chains[o] ensures f.id in d.chains ==> c !in d.chains[f.id] {
      assert o in d.chains - {f.id} && d.chains[o] == (d.chains - {f.id})[o] == (chains - {f.id})[o] == chains[o];
    }
  }

  /** What lies outside f's chain, or on used clusters, is all that lies on other chains. */
  lemma FailureUntouched(f: FileInfo, d: Disk, fat: Fat, chains: map<int, seq<nat>>, cl: Clusters)
    requires WellFormed(fat, chains) && WellFormed(d.fat, d.chains) && d.chains - {f.id} == chains - {f.id} && |d.clusters| == |cl| == |fat|
    requires || (f.id in d.chains && forall c :: 0 <= c < |cl| && c !in d.chains[f.id] ==> d.clusters[c] == cl[c])
             || (forall c :: 0 <= c < |cl| && fat[c] != 0 ==> d.clusters[c] == cl[c])
    ensures OthersUntouched(f, d, chains, cl) && OthersSpared(f, d, chains, cl)
  {
    hide Covered;
    forall o, c | o in chains && o != f.id && c in chains[o] && c < |cl| ensures d.clusters[c] == cl[c] {
      OwnChain(fat, chains, o);
      assert o in d.chains - {f.id} && d.chains[o] == (d.chains - {f.id})[o] == (chains - {f.id})[o] == chains[o];
    }
  }

  /** What every successful call keeps, and how it may change the volume: by steps on its own file only. */
  ghost predicate Kept(f: FileInfo, d: Disk, fat: Fat, chains: map<int, seq<nat>>, cl: Clusters, buf: Sector)
    reads f`dirSectorBuf, d`fat, d`chains, d`clusters
  {
    && Isolated(f, d, chains, cl) && VR.Reaches(VR.Tables(fat, chains), VR.Tables(d.fat, d.chains), {f.id})
    && (f.HasEntry() ==> f.dirSectorOffset + 32 <= 512 && SameButFields(buf, f.dirSectorBuf, f.dirSectorOffset))
  }

  /** A direct write as a change of the content; one that fails leaves the descriptor and the content alone. */
  method WriteCall(f: FileInfo, d: Disk, buf: seq<byte>, offset: nat, cursor: nat) returns (st: Status, n: nat, cursor': nat)
    requires Ready(f, d) && CursorAt(f, d, cursor) && d.geo.sectorsPerCluster > 0
    requires buf != [] && Allowed(f, d.geo.sectorsPerCluster, cursor, Write(buf, offset))
    modifies f, d
    ensures d.Valid() && WellFormed(d.fat, d.chains) && d.ioFaults <= old(d.ioFaults)
    ensures !st.Done? ==> (st.Failed? && d.ioFaults < old(d.ioFaults)) || Stuck(f, d, Write(buf, offset), st)
    ensures st.Done? && n < |buf| ==> NoneFree(d.fat) || d.ioFaults < old(d.ioFaults)
    ensures d.ioFaults == old(d.ioFaults) && old(NeedsNoClusters(f, d, Write(buf, offset))) ==> st.Done? && n == |buf|
    ensures !st.Hung? ==> Ready(f, d) && CursorAt(f, d, cursor') && VR.Reaches(VR.Tables(old(d.fat), old(d.chains)), VR.Tables(d.fat, d.chains), {f.id})
    ensures st.Done? ==> 0 < n <= |buf| && offset <= |old(FileContent(f, d))|
    ensures st.Done? ==> FileContent(f, d) == Splice(old(FileContent(f, d)), offset, buf[..n])
    ensures st.Done? ==> Kept(f, d, old(d.fat), old(d.chains), old(d.clusters), old(f.dirSectorBuf))
    ensures st.Done? && d.ioFaults == old(d.ioFaults) ==> Saved(f, d)
    ensures !st.Done? ==> unchanged(f)
    ensures st.Failed? ==> n == 0 && FileContent(f, d) == old(FileContent(f, d)) && OthersUntouched(f, d, old(d.chains), old(d.clusters))
  {
    hide FatsHold, DataImage, Disjoint, Covered, Times, Quot, Rem, ByteAt, Grown, FileInfo.EntryOnDisk,
         FileInfo.WritePosition, Splice, VR.Reaches, FitsChain, FirstBatch, GrewTo, WriteEnds, PastEnd,
         WellFormed, Holds, IsChain, Content, Spliced, FileInfo.EntryPlaced, OthersUntouched, Isolated, SomeRun, NoneFree,
         SameButFields, AllChains, FileInfo.OnlyChanged;
    AllowedWritesExactly(f, d, cursor, buf, offset);
    ghost var fat, chains, cl, size, spc := d.fat, d.chains, d.clusters, f.fileSize, d.geo.sectorsPerCluster;
    DiskShape(d);
    st, n := f.PwriteDirect(d, buf, offset);
    cursor' := if st.Done? then CeilSectors(offset + n) else cursor;
    if !st.Hung? {
      WrittenFile(f, d, chains, cl, size, offset, buf[..n]);
    }
    if st.Done? {
      IsolatedByWrite(f, d, chains, cl);
    } else if st.Failed? {
      NothingSpliced(Content(cl, chains[f.id], spc, size), offset);
      FailureUntouched(f, d, fat, chains, cl);
    }
  }

  /** A file after data has been spliced in, or after nothing has. */
  lemma WrittenFile(f: FileInfo, d: Disk, chains: map<int, seq<nat>>, cl: Clusters, size: nat, offset: nat, data: seq<byte>)
    requires d.Valid() && WellFormed(d.fat, d.chains) && d.fatFaults == 0 && f.id in chains && f.id in d.chains
    requires !f.buffered && chains[f.id] != [] && chains[f.id][0] == f.firstCluster && f.EntryPlaced(d) && f.EntryAgrees()
    requires Spliced(cl, chains[f.id], d.clusters, d.chains[f.id], d.geo.sectorsPerCluster, offset, data)
    requires offset <= size <= Times(|chains[f.id]|, d.geo.sectorsPerCluster) * 512 && f.fileSize == MaxOf(size, offset + |data|) < 0x1_0000_0000
    requires f.currentClusterIdx < |chains[f.id]| && chains[f.id][f.currentClusterIdx] == f.currentCluster
    requires || f.WriteCursor(d)
             || (f.writeIdx < |chains[f.id]| && chains[f.id][f.writeIdx] == f.writeCluster && f.sectorInCluster <= d.geo.sectorsPerCluster)
    ensures Ready(f, d) && offset <= |Content(cl, chains[f.id], d.geo.sectorsPerCluster, size)|
    ensures FileContent(f, d) == Splice(Content(cl, chains[f.id], d.geo.sectorsPerCluster, size), offset, data)
  {
    hide FatsHold, DataImage, Disjoint, Covered, Times, Quot, Rem, ByteAt, Splice, FileInfo.EntryPlaced, FileInfo.EntryAgrees;
    OwnChain(d.fat, d.chains, f.id);
    SplicedContent(cl, chains[f.id], d.clusters, d.chains[f.id], d.geo.sectorsPerCluster, offset, data, size);
  }

  lemma NothingSpliced(s: seq<byte>, at: nat)
    requires at <= |s|
    ensures Splice(s, at, []) == s
  {
  }

  lemma IsolatedByWrite(f: FileInfo, d: Disk, chains: map<int, seq<nat>>, cl: Clusters)
    requires f.id in d.chains && d.chains == chains[f.id := d.chains[f.id]] && f.OnlyChanged(cl, d.clusters, d.chains[f.id])
    ensures Isolated(f, d, chains, cl)
  {
  }

  /**
   * When a truncation to a length above zero resizes the content with zeros: on the
   * clusters the file has, exactly when the chain holds zeros there; onto a new
   * block, exactly when the rest of the last sector and of the block is zero.
   */
  ghost predicate ResizedWhen(f: FileInfo, d: Disk, chains: map<int, seq<nat>>, cl: Clusters, size: nat, length: nat)
    requires f.OpenDirect(d) && d.geo.sectorsPerCluster > 0 && f.id in chains
    reads f, d
  {
    var ch, spc := chains[f.id], d.geo.sectorsPerCluster;
    var n := ClustersFor(length, spc);
    && Holds(cl, ch, spc) && size <= Times(|ch|, spc) * 512
    && (FileContent(f, d) == Resized(Content(cl, ch, spc, size), length) <==>
          if n <= |ch| then ZerosOnChain(cl, ch, spc, size, length)
          else ZerosOnChain(cl, ch, spc, size, CeilSectors(size) * 512)
               && ZerosOnChain(cl, Run(f.firstCluster, n), spc, CeilSectors(size) * 512, length))
  }

  /** A truncation as a change of the content. */
  method TruncateCall(f: FileInfo, d: Disk, length: nat) returns (st: Status)
    requires Ready(f, d) && length < 0x1_0000_0000
    modifies f, d
    ensures d.Valid() && d.ioFaults <= old(d.ioFaults) && d.geo.sectorsPerCluster > 0
    ensures !st.Done? ==> WellFormed(d.fat, d.chains) && d.fat == old(d.fat) && d.chains == old(d.chains) && unchanged(f)
    ensures !st.Done? ==> Ready(f, d) && FileContent(f, d) == old(FileContent(f, d)) && OthersUntouched(f, d, old(d.chains), old(d.clusters))
    ensures !st.Done? ==> length > |old(FileContent(f, d))|
    ensures !st.Done? ==> (st.Failed? && d.ioFaults < old(d.ioFaults)) || Stuck(f, d, Truncate(length), st)
    ensures old(NeedsNoClusters(f, d, Truncate(length))) ==> st.Done?
    ensures st.Done? ==> Ready(f, d) && CursorAt(f, d, 0)
    ensures st.Done? ==> Follows(old(FileContent(f, d)), Truncate(length), Done, [], FileContent(f, d), d.fat, true)
    ensures st.Done? && f.id in old(d.chains) && length > 0 ==>
              d.geo.sectorsPerCluster > 0 && ResizedWhen(f, d, old(d.chains), old(d.clusters), old(f.fileSize), length)
    ensures st.Done? && f.id in old(d.chains) && 0 < ClustersFor(length, d.geo.sectorsPerCluster) <= |old(d.chains)[f.id]| ==>
              f.Shortened(d, old(d.chains), old(d.clusters), ClustersFor(length, d.geo.sectorsPerCluster))
    ensures st.Done? ==> Kept(f, d, old(d.fat), old(d.chains), old(d.clusters), old(f.dirSectorBuf))
    ensures st.Done? && d.ioFaults == old(d.ioFaults) ==> Saved(f, d)
  {
    hide FatsHold, DataImage, Disjoint, Covered, Quot, Rem, ByteAt, FileInfo.EntryPlaced, EntryCluster, EntrySize,
         VR.Reaches, FileInfo.EntryOnDisk, ResizedWhen, FileInfo.Shortened, FileInfo.Moved,
         AllOrLeaked, UsedKept, Holds, FreeCount, OthersUntouched;
    ghost var chains, cl, size := d.chains, d.clusters, f.fileSize;
    DiskShape(d);
    NeedsClusters(length, d.geo.sectorsPerCluster);
    st := f.TruncateDirect(d, length);
    if !st.Done? {
      UsedKeptStays(f, d, chains, cl);
    }
    if st.Done? && f.id in chains && length > 0 {
      ResizeCases(f, d, chains, cl, size, length);
    }
  }

  /** When no used cluster has changed, a file whose descriptor is as before is as usable as before and holds the same. */
  lemma UsedKeptStays(f: FileInfo, d: Disk, chains: map<int, seq<nat>>, cl: Clusters)
    requires d.Valid() && WellFormed(d.fat, d.chains) && d.chains == chains && UsedKept(d.fat, cl, d.fat, d.clusters)
    requires f.id in chains ==>
               Holds(cl, chains[f.id], d.geo.sectorsPerCluster) && f.fileSize <= Times(|chains[f.id]|, d.geo.sectorsPerCluster) * 512
    ensures f.id in chains ==>
              && Holds(d.clusters, chains[f.id], d.geo.sectorsPerCluster)
              && Content(d.clusters, chains[f.id], d.geo.sectorsPerCluster, f.fileSize) == Content(cl, chains[f.id], d.geo.sectorsPerCluster, f.fileSize)
    ensures OthersUntouched(f, d, chains, cl)
  {
    hide FatsHold, DataImage, Times, Quot, Rem, SectorAt, Disjoint, Covered, AllChains, OthersUntouched;
    if f.id in chains {
      OwnChain(d.fat, chains, f.id);
      SectorsFrame(cl, d.clusters, chains[f.id], d.geo.sectorsPerCluster);
    }
    FailureUntouched(f, d, d.fat, chains, cl);
  }

  lemma NeedsClusters(length: nat, spc: nat)
    requires spc > 0
    ensures ClustersFor(length, spc) == 0 <==> length == 0
  {
    ClustersNeeded(length, spc);
  }

  lemma ResizeCases(f: FileInfo, d: Disk, chains: map<int, seq<nat>>, cl: Clusters, size: nat, length: nat)
    requires f.OpenDirect(d) && d.geo.sectorsPerCluster > 0 && f.id in chains && f.fileSize == length
    requires Holds(cl, chains[f.id], d.geo.sectorsPerCluster) && size <= Times(|chains[f.id]|, d.geo.sectorsPerCluster) * 512
    requires if ClustersFor(length, d.geo.sectorsPerCluster) <= |chains[f.id]|
             then f.Shortened(d, chains, cl, ClustersFor(length, d.geo.sectorsPerCluster))
             else f.Moved(d, chains, cl, size, ClustersFor(length, d.geo.sectorsPerCluster))
    ensures ResizedWhen(f, d, chains, cl, size, length)
  {
    hide FatsHold, DataImage, Times, Quot, Rem, ByteAt, FileInfo.EntryAgrees, ZerosOnChain, Copied, Resized, FileContent;
    if ClustersFor(length, d.geo.sectorsPerCluster) <= |chains[f.id]| {
      ShortenedContent(f, d, chains, cl, size, length);
    } else {
      MovedContent(f, d, chains, cl, size, length);
    }
  }

  /** The content after a truncation onto a new block. */
  lemma MovedContent(f: FileInfo, d: Disk, chains: map<int, seq<nat>>, cl: Clusters, size: nat, length: nat)
    requires f.OpenDirect(d) && d.geo.sectorsPerCluster > 0 && f.Moved(d, chains, cl, size, ClustersFor(length, d.geo.sectorsPerCluster))
    requires size <= Times(|chains[f.id]|, d.geo.sectorsPerCluster) * 512 && f.fileSize == length
    requires |chains[f.id]| < ClustersFor(length, d.geo.sectorsPerCluster)
    ensures FileContent(f, d) == Resized(Content(cl, chains[f.id], d.geo.sectorsPerCluster, size), length) <==>
            && ZerosOnChain(cl, chains[f.id], d.geo.sectorsPerCluster, size, CeilSectors(size) * 512)
            && ZerosOnChain(cl, d.chains[f.id], d.geo.sectorsPerCluster, CeilSectors(size) * 512, length)
  {
    hide FatsHold, DataImage, Times, Quot, Rem, ByteAt, FileInfo.EntryAgrees, ZerosOnChain, Copied, Resized;
    var ch, spc, n := chains[f.id], d.geo.sectorsPerCluster, ClustersFor(length, d.geo.sectorsPerCluster);
    ClustersNeeded(length, spc);
    TimesMono(|ch|, n - 1, spc);
    ResizedByCopy(cl, ch, d.clusters, d.chains[f.id], spc, size, length);
  }

  /** The content after a truncation within the chain, in terms of the chain before it. */
  lemma ShortenedContent(f: FileInfo, d: Disk, chains: map<int, seq<nat>>, cl: Clusters, size: nat, length: nat)
    requires f.OpenDirect(d) && d.geo.sectorsPerCluster > 0 && f.Shortened(d, chains, cl, ClustersFor(length, d.geo.sectorsPerCluster))
    requires Holds(cl, chains[f.id], d.geo.sectorsPerCluster) && size <= Times(|chains[f.id]|, d.geo.sectorsPerCluster) * 512
    requires f.fileSize == length
    ensures length <= Times(|chains[f.id]|, d.geo.sectorsPerCluster) * 512
    ensures FileContent(f, d) == Content(cl, chains[f.id], d.geo.sectorsPerCluster, length)
    ensures FileContent(f, d) == Resized(Content(cl, chains[f.id], d.geo.sectorsPerCluster, size), length) <==>
            ZerosOnChain(cl, chains[f.id], d.geo.sectorsPerCluster, size, length)
  {
    hide FatsHold, DataImage, Times, Quot, Rem, ByteAt, FileInfo.EntryAgrees, ZerosOnChain;
    var ch, spc := chains[f.id], d.geo.sectorsPerCluster;
    var n := ClustersFor(length, spc);
    ClustersNeeded(length, spc);
    TimesMono(n, |ch|, spc);
    PrefixContent(cl, ch, n, spc, length);
    assert forall c :: c in ch[..n] && c < |cl| ==> d.clusters[c] == cl[c];
    SameContentFrame(cl, ch, cl, ch[..n], spc, length, d.clusters);
    ResizedOnChain(cl, ch, spc, size, length);
  }

  /** A read: nothing changes but the read position.  It fails only at an I/O error before its first byte. */
  method ReadCall(f: FileInfo, d: Disk, count: nat, offset: nat, ghost cursor: nat) returns (st: Status, answer: seq<byte>)
    requires Ready(f, d) && CursorAt(f, d, cursor) && d.geo.sectorsPerCluster > 0
    requires Allowed(f, d.geo.sectorsPerCluster, cursor, Read(count, offset))
    modifies f`currentCluster, f`currentClusterIdx, f`lastOffset, d`ioFaults
    ensures Ready(f, d) && CursorAt(f, d, cursor) && FileContent(f, d) == old(FileContent(f, d)) && d.ioFaults <= old(d.ioFaults)
    ensures Answers(FileContent(f, d), count, offset, answer, d.ioFaults == old(d.ioFaults))
    ensures st == if answer == [] && d.ioFaults < old(d.ioFaults) then Failed else Done
    ensures st.Done? && answer == [] ==> ReadLength(|FileContent(f, d)|, offset, count) == 0
    ensures old(f.ReadPosition(d.geo.sectorsPerCluster)) ==> f.ReadPosition(d.geo.sectorsPerCluster)
  {
    hide FatsHold, DataImage, WellFormed, Times, Rem, ByteAt, FileInfo.EntryPlaced, FileInfo.EntryAgrees, BytesFrom, Content;
    ghost var si, spc := f.StartIndex(offset), d.geo.sectorsPerCluster;
    var n;
    n, answer := f.PreadDirect(d, count, offset);
    st := if n == -1 then Failed else Done;
    if answer != [] && f.id in d.chains {
      ReadsContent(d.clusters, d.chains[f.id], spc, si, offset, answer, f.fileSize);
    }
  }

  /** The calls that write the directory entry. */
  predicate Changes(call: Call) {
    call.Truncate? || (call.Write? && call.buf != [])
  }

  /** One allowed call.  After a call that fails the descriptor and the volume are as usable as before. */
  method Perform(f: FileInfo, d: Disk, call: Call, cursor: nat) returns (st: Status, answer: seq<byte>, cursor': nat)
    requires Ready(f, d) && CursorAt(f, d, cursor) && d.geo.sectorsPerCluster > 0 && Allowed(f, d.geo.sectorsPerCluster, cursor, call)
    modifies f, d
    ensures d.Valid() && WellFormed(d.fat, d.chains) && d.ioFaults <= old(d.ioFaults)
    ensures !st.Done? ==> (st.Failed? && d.ioFaults < old(d.ioFaults)) || Stuck(f, d, call, st)
    ensures d.ioFaults == old(d.ioFaults) && old(NeedsNoClusters(f, d, call)) ==> st.Done?
    ensures !st.Hung? ==> Ready(f, d) && CursorAt(f, d, cursor')
    ensures !st.Hung? ==> Follows(old(FileContent(f, d)), call, st, answer, FileContent(f, d), d.fat, d.ioFaults == old(d.ioFaults))
    ensures st.Done? && d.ioFaults == old(d.ioFaults) && old(NeedsNoClusters(f, d, call)) && call.Write? && call.buf != [] ==>
              call.offset <= |old(FileContent(f, d))| && FileContent(f, d) == Splice(old(FileContent(f, d)), call.offset, call.buf)
    ensures st.Done? ==> Kept(f, d, old(d.fat), old(d.chains), old(d.clusters), old(f.dirSectorBuf))
    ensures st.Failed? ==> FailedSoft(f, d, old(d.fat), old(d.chains), old(d.clusters), old(f.dirSectorBuf))
    ensures !st.Hung? && old(Saved(f, d)) && d.ioFaults == old(d.ioFaults) ==> Saved(f, d)
    ensures st.Failed? && old(Saved(f, d)) ==> Saved(f, d)
    ensures st.Done? && Changes(call) && d.ioFaults == old(d.ioFaults) ==> Saved(f, d)
    ensures !Changes(call) ==> d.clusters == old(d.clusters)
  {
    hide FatsHold, DataImage, WellFormed, Times, Quot, Rem, ByteAt, Content, FileInfo.EntryOnDisk, VR.Reaches,
         FitsChain, FirstBatch, NeedsNoClusters, OthersUntouched;
    st, answer, cursor' := Done, [], cursor;
    ghost var fat, chains, cl, content := d.fat, d.chains, d.clusters, FileContent(f, d);
    NothingChanged(f, d);
    match call
    case Write(buf, offset) =>
      if buf != [] {
        var n;
        st, n, cursor' := WriteCall(f, d, buf, offset, cursor);
        assert buf[..|buf|] == buf;
        if st.Failed? {
          StillSaved(f, d, fat, chains, cl);
        }
        assert !st.Hung? ==> Follows(content, call, st, [], FileContent(f, d), d.fat, d.ioFaults == old(d.ioFaults));
      }
    case Truncate(length) =>
      st := TruncateCall(f, d, length);
      if st.Failed? {
        StillSaved(f, d, fat, chains, cl);
      } else {
        cursor' := 0;
      }
    case Read(count, offset) =>
      st, answer := ReadCall(f, d, count, offset, cursor);
  }

  /** What a call that has failed leaves: everything of the other owners, and the descriptor's directory sector. */
  ghost predicate FailedSoft(f: FileInfo, d: Disk, fat: Fat, chains: map<int, seq<nat>>, cl: Clusters, buf: Sector)
    reads f`dirSectorBuf, d`fat, d`chains, d`clusters
  {
    OthersUntouched(f, d, chains, cl) && VR.Reaches(VR.Tables(fat, chains), VR.Tables(d.fat, d.chains), {f.id}) && f.dirSectorBuf == buf
  }

  /** A directory sector that lies on another owner's chain stays. */
  lemma StillSaved(f: FileInfo, d: Disk, fat: Fat, chains: map<int, seq<nat>>, cl: Clusters)
    requires WellFormed(fat, chains) && OthersUntouched(f, d, chains, cl) && Ready(f, d) && |cl| == |fat|
    requires f.HasEntry() ==> f.dirCluster < |fat| && fat[f.dirCluster] != 0 && (f.id in chains ==> f.dirCluster !in chains[f.id])
    ensures f.HasEntry() && f.EntryOnDisk(cl) ==> Saved(f, d)
  {
    hide FatsHold, DataImage, AllChains, Disjoint, IsChain, Times;
    if f.HasEntry() {
      assert Owned(chains, f.dirCluster);
    }
  }

  lemma NothingChanged(f: FileInfo, d: Disk)
    requires Ready(f, d)
    ensures Kept(f, d, d.fat, d.chains, d.clusters, f.dirSectorBuf) && FailedSoft(f, d, d.fat, d.chains, d.clusters, f.dirSectorBuf)
    ensures |d.clusters| == |d.fat|
    ensures f.HasEntry() ==> f.dirCluster < |d.fat| && d.fat[f.dirCluster] != 0 && (f.id in d.chains ==> f.dirCluster !in d.chains[f.id])
  {
    hide VR.Reaches;
    VR.ReachesItself(VR.Tables(d.fat, d.chains), {f.id});
  }

  /**
   * A run of direct writes, truncations and reads on one descriptor, as far as the
   * calls are allowed: the file goes through the contents of a run of a byte string,
   * every read answers from it, calls that fail change nothing, and without an I/O
   * error the directory entry on disk is kept up to date.  The run stops early only
   * at a call that is not allowed, or at one whose search for clusters never ends.
   */
  method Session(f: FileInfo, d: Disk, calls: seq<Call>, cursor0: nat)
    returns (st: Status, done: nat, cursor: nat, outcomes: seq<Status>, answers: seq<seq<byte>>, ghost contents: seq<seq<byte>>, ghost fats: seq<Fat>)
    requires Ready(f, d) && CursorAt(f, d, cursor0) && d.geo.sectorsPerCluster > 0
    modifies f, d
    ensures d.Valid() && WellFormed(d.fat, d.chains) && d.ioFaults <= old(d.ioFaults)
    ensures done <= |calls| && IsRun(contents, calls[..done], outcomes, answers, fats, d.ioFaults == old(d.ioFaults))
    ensures contents[0] == old(FileContent(f, d)) && !st.Failed?
    ensures st.Done? ==> Ready(f, d) && contents[done] == FileContent(f, d) && (done > 0 ==> fats[done - 1] == d.fat)
    ensures st.Done? ==> VR.Reaches(VR.Tables(old(d.fat), old(d.chains)), VR.Tables(d.fat, d.chains), {f.id})
    ensures st.Done? && old(Saved(f, d)) && d.ioFaults == old(d.ioFaults) ==> Saved(f, d)
    ensures st.Done? ==> CursorAt(f, d, cursor) && (done < |calls| ==> !Allowed(f, d.geo.sectorsPerCluster, cursor, calls[done]))
    ensures st.Hung? ==> done < |calls| && Stuck(f, d, calls[done], Hung)
  {
    hide FatsHold, DataImage, WellFormed, IsRun, Follows, FileContent, VR.Reaches, Saved, Isolated, SameButFields,
         FileInfo.OpenDirect, CursorAt, Times, Stuck, NeedsNoClusters, Splice, OthersUntouched;
    st, done, outcomes, answers, contents, fats := Done, 0, [], [], [FileContent(f, d)], [];
    cursor := cursor0;
    ghost var was := VR.Tables(d.fat, d.chains);
    VR.ReachesItself(was, {f.id});
    RunStarts(contents, calls);
    while done < |calls|
      invariant done <= |calls| && st.Done? && Ready(f, d) && CursorAt(f, d, cursor) && d.ioFaults <= old(d.ioFaults)
      invariant IsRun(contents, calls[..done], outcomes, answers, fats, d.ioFaults == old(d.ioFaults)) && |contents| == done + 1 && |fats| == done
      invariant contents[0] == old(FileContent(f, d)) && contents[done] == FileContent(f, d) && (done > 0 ==> fats[done - 1] == d.fat)
      invariant VR.Reaches(was, VR.Tables(d.fat, d.chains), {f.id})
      invariant old(Saved(f, d)) && d.ioFaults == old(d.ioFaults) ==> Saved(f, d)
    {
      if !Allowed(f, d.geo.sectorsPerCluster, cursor, calls[done]) {
        return;
      }
      ghost var mid, faults := VR.Tables(d.fat, d.chains), d.ioFaults;
      var outcome, answer;
      outcome, answer, cursor := Perform(f, d, calls[done], cursor);
      RunWeakens(contents, calls[..done], outcomes, answers, fats, faults == old(d.ioFaults), d.ioFaults == old(d.ioFaults));
      if outcome.Hung? {
        st := Hung;
        return;
      }
      VR.ReachesOn(was, mid, VR.Tables(d.fat, d.chains), {f.id});
      FollowsWeakens(contents[done], calls[done], outcome, answer, FileContent(f, d), d.fat, d.ioFaults == faults, d.ioFaults == old(d.ioFaults));
      RunGrows(contents, calls, outcomes, answers, fats, done, FileContent(f, d), outcome, answer, d.fat, d.ioFaults == old(d.ioFaults));
      contents := contents + [FileContent(f, d)];
      fats := fats + [d.fat];
      outcomes := outcomes + [outcome];
      answers := answers + [answer];
      done := done + 1;
    }
  }

  lemma RunStarts(contents: seq<seq<byte>>, calls: seq<Call>)
    requires |contents| == 1
    ensures IsRun(contents, calls[..0], [], [], [], true)
  {
  }

  lemma FollowsWeakens(before: seq<byte>, call: Call, st: Status, answer: seq<byte>, after: seq<byte>, fat: Fat, whole: bool, whole': bool)
    requires Follows(before, call, st, answer, after, fat, whole) && (whole' ==> whole)
    ensures Follows(before, call, st, answer, after, fat, whole')
  {
    if st.Done? && call.Write? && call.buf != [] {
      var n :| 0 < n <= |call.buf| && (n < |call.buf| ==> NoneFree(fat) || !whole) && after == Splice(before, call.offset, call.buf[..n]);
      assert n < |call.buf| ==> NoneFree(fat) || !whole';
    }
  }

  lemma RunWeakens(contents: seq<seq<byte>>, calls: seq<Call>, outcomes: seq<Status>, answers: seq<seq<byte>>, fats: seq<Fat>, whole: bool, whole': bool)
    requires IsRun(contents, calls, outcomes, answers, fats, whole) && (whole' ==> whole)
    ensures IsRun(contents, calls, outcomes, answers, fats, whole')
  {
    hide Follows;
    forall i | 0 <= i < |calls| ensures Follows(contents[i], calls[i], outcomes[i], answers[i], contents[i + 1], fats[i], whole') {
      FollowsWeakens(contents[i], calls[i], outcomes[i], answers[i], contents[i + 1], fats[i], whole, whole');
    }
  }

  lemma RunGrows(contents: seq<seq<byte>>, calls: seq<Call>, outcomes: seq<Status>, answers: seq<seq<byte>>, fats: seq<Fat>, n: nat,
                 next: seq<byte>, outcome: Status, answer: seq<byte>, fat: Fat, whole: bool)
    requires n < |calls| && IsRun(contents, calls[..n], outcomes, answers, fats, whole) && |contents| == n + 1
    requires Follows(contents[n], calls[n], outcome, answer, next, fat, whole)
    ensures IsRun(contents + [next], calls[..n + 1], outcomes + [outcome], answers + [answer], fats + [fat], whole)
  {
    hide Follows;
  }

  datatype Request = Request(count: nat, offset: nat)

  /** A run of reads on a descriptor that is only read from: no condition is needed. */
  method ReadSession(f: FileInfo, d: Disk, requests: seq<Request>) returns (answers: seq<seq<byte>>)
    requires Ready(f, d) && d.geo.sectorsPerCluster > 0 && f.ReadPosition(d.geo.sectorsPerCluster)
    modifies f`currentCluster, f`currentClusterIdx, f`lastOffset, d`ioFaults
    ensures Ready(f, d) && FileContent(f, d) == old(FileContent(f, d)) && |answers| == |requests|
    ensures forall i :: 0 <= i < |requests| ==>
              Answers(FileContent(f, d), requests[i].count, requests[i].offset, answers[i], d.ioFaults == old(d.ioFaults))
  {
    hide FatsHold, DataImage, WellFormed, Times, FileInfo.OpenDirect, FileContent, CursorAt;
    answers := [];
    ghost var content := FileContent(f, d);
    ghost var cursor := CursorOf(f, d);
    while |answers| < |requests|
      invariant Ready(f, d) && FileContent(f, d) == content && CursorAt(f, d, cursor)
      invariant f.ReadPosition(d.geo.sectorsPerCluster) && d.ioFaults <= old(d.ioFaults) && |answers| <= |requests|
      invariant forall i :: 0 <= i < |answers| ==>
                  Answers(content, requests[i].count, requests[i].offset, answers[i], d.ioFaults == old(d.ioFaults))
    {
      var r := requests[|answers|];
      var _, answer := ReadCall(f, d, r.count, r.offset, cursor);
      answers := answers + [answer];
    }
  }

  lemma CursorOf(f: FileInfo, d: Disk) returns (cursor: nat)
    ensures CursorAt(f, d, cursor)
  {
    cursor := Times(f.writeIdx, d.geo.sectorsPerCluster) + f.sectorInCluster;
  }
}
