/** Runs of calls on several open files of one volume: each call changes its own file and no other. */
module Workspaces {
  import opened Bytes
  import opened Chains
  import opened Volume
  import opened Allocator
  import opened Contents
  import opened Arith
  import opened DirFields
  import opened FileLayer
  import opened Sessions
  import VR = VolumeRuns

  /** The file's directory sector lies on the chain of an owner that is not one of the open files. */
  ghost predicate EntryElsewhere(f: FileInfo, chains: map<int, seq<nat>>, ids: set<int>) {
    f.HasEntry() ==> exists o :: o in chains && o !in ids && f.dirCluster in chains[o]
  }

  ghost function Ids(files: seq<FileInfo>): set<int> {
    set i | 0 <= i < |files| :: files[i].id
  }

  /** Several files open for direct access, each with its own descriptor and chain. */
  ghost predicate Open(files: seq<FileInfo>, d: Disk)
    reads files, d
  {
    && (forall i :: 0 <= i < |files| ==> Ready(files[i], d) && EntryElsewhere(files[i], d.chains, Ids(files)))
    && (forall i, j :: 0 <= i < j < |files| ==> files[i] != files[j] && files[i].id != files[j].id)
  }

  ghost function AllContents(files: seq<FileInfo>, d: Disk): (r: seq<seq<byte>>)
    requires Open(files, d)
    reads files, d
    ensures |r| == |files| && forall i :: 0 <= i < |files| ==> r[i] == FileContent(files[i], d)
  {
    seq(|files|, i requires 0 <= i < |files| reads files, d requires Ready(files[i], d) => FileContent(files[i], d))
  }

  /** Ready, of a volume given by its values. */
  ghost predicate ReadyOn(g: FileInfo, geo: Geometry, chains: map<int, seq<nat>>, cl: Clusters)
    reads g
  {
    && (if g.id in chains
        then !g.buffered && chains[g.id] != [] && chains[g.id][0] == g.firstCluster && Holds(cl, chains[g.id], geo.sectorsPerCluster)
             && g.fileSize <= Times(|chains[g.id]|, geo.sectorsPerCluster) * 512
        else !g.buffered && g.firstCluster == 0 && g.fileSize == 0)
    && g.EntryAgrees() && g.fileSize < 0x1_0000_0000
    && (g.HasEntry() ==> g.dirSectorOffset + 32 <= 512 && 2 <= g.dirCluster && g.dirSlot < geo.sectorsPerCluster
                         && geo.partitionStart + g.dirSector == geo.SectorOf(g.dirCluster, g.dirSlot))
    && (g.writeCluster != 0 ==>
          && g.id in chains && g.writeIdx < |chains[g.id]| && chains[g.id][g.writeIdx] == g.writeCluster
          && g.sectorInCluster <= geo.sectorsPerCluster)
    && (g.id in chains ==> g.currentClusterIdx < |chains[g.id]| && chains[g.id][g.currentClusterIdx] == g.currentCluster)
  }

  ghost function ContentOn(g: FileInfo, geo: Geometry, chains: map<int, seq<nat>>, cl: Clusters): seq<byte>
    requires ReadyOn(g, geo, chains, cl)
    reads g
  {
    if g.id in chains then Content(cl, chains[g.id], geo.sectorsPerCluster, g.fileSize) else []
  }

  lemma ReadyValues(g: FileInfo, d: Disk)
    requires Ready(g, d)
    ensures ReadyOn(g, d.geo, d.chains, d.clusters) && ContentOn(g, d.geo, d.chains, d.clusters) == FileContent(g, d)
  {
    hide FatsHold, DataImage, WellFormed, Times, Quot, Rem, ByteAt, EntryCluster, EntrySize;
  }

  lemma EntryStays(g: FileInfo, fat: Fat, chains: map<int, seq<nat>>, before: map<int, seq<nat>>, id: int, ids: set<int>)
    requires id in ids && chains - {id} == before - {id} && WellFormed(fat, chains) && EntryElsewhere(g, before, ids)
    ensures EntryElsewhere(g, chains, ids)
    ensures g.HasEntry() ==> 2 <= g.dirCluster < |fat| && fat[g.dirCluster] != 0
    ensures g.HasEntry() ==> forall i :: i in ids && i in chains ==> g.dirCluster !in chains[i]
  {
    if g.HasEntry() {
      var o :| o in before && o !in ids && g.dirCluster in before[o];
      assert o in before - {id};
      assert o in chains && chains[o] == before[o];
      OwnChain(fat, chains, o);
    }
  }

  /** After a call on f another open file is as ready as before and has the same content. */
  lemma StillReady(f: FileInfo, g: FileInfo, d: Disk, chains: map<int, seq<nat>>, cl: Clusters, ids: set<int>)
    requires f.id != g.id && f.id in ids && g.id in ids
    requires Ready(f, d) && OthersSpared(f, d, chains, cl) && ReadyOn(g, d.geo, chains, cl)
    requires EntryElsewhere(f, chains, ids) && EntryElsewhere(g, chains, ids)
    ensures Ready(g, d) && EntryElsewhere(g, d.chains, ids)
    ensures FileContent(g, d) == ContentOn(g, d.geo, chains, cl)
  {
    hide FatsHold, DataImage, Covered, Times, Quot, Rem, ByteAt, EntryCluster, EntrySize;
    EntryStays(g, d.fat, d.chains, chains, f.id, ids);
    EntryStays(f, d.fat, d.chains, chains, f.id, ids);
    assert g.id in chains <==> g.id in chains - {f.id};
    assert g.id in d.chains <==> g.id in d.chains - {f.id};
    if g.id in chains {
      var ch, spc := d.chains[g.id], d.geo.sectorsPerCluster;
      assert chains[g.id] == (chains - {f.id})[g.id] == ch;
      OwnChain(d.fat, d.chains, g.id);
      assert f.HasEntry() ==> f.dirCluster !in ch;
      SameContentHere(cl, d.clusters, ch, spc, g.fileSize);
    }
  }

  lemma SameContentHere(cl: Clusters, cl': Clusters, ch: seq<nat>, spc: nat, size: nat)
    requires Holds(cl, ch, spc) && |cl'| == |cl| && size <= Times(|ch|, spc) * 512
    requires forall c :: c in ch && c < |cl| ==> cl'[c] == cl[c]
    ensures Holds(cl', ch, spc) && Content(cl', ch, spc, size) == Content(cl, ch, spc, size)
  {
    hide SectorAt;
    SectorsFrame(cl, cl', ch, spc);
    forall i | 0 <= i < size ensures ByteAt(cl', ch, spc, i) == ByteAt(cl, ch, spc, i) {
    }
  }

  // ----- the directory entries on disk

  /** No two open files have their entries in the same sector. */
  ghost predicate SeparateEntries(files: seq<FileInfo>) {
    forall i, j :: 0 <= i < j < |files| && files[i].HasEntry() && files[j].HasEntry() ==>
      files[i].dirCluster != files[j].dirCluster || files[i].dirSlot != files[j].dirSlot
  }

  ghost predicate AllSaved(files: seq<FileInfo>, d: Disk)
    reads files, d
  {
    forall i :: 0 <= i < |files| ==> Saved(files[i], d)
  }

  /** The sector's entry for g names g's first cluster and size. */
  predicate Names(sector: Sector, g: FileInfo)
    requires g.HasEntry() && g.dirSectorOffset + 32 <= 512
    reads g`firstCluster, g`fileSize
  {
    EntryCluster(sector, g.dirSectorOffset) == g.firstCluster && EntrySize(sector, g.dirSectorOffset) == g.fileSize
  }

  /** g's entry on disk names g. */
  ghost predicate NamedOnDisk(g: FileInfo, d: Disk)
    requires d.Valid() && g.HasEntry() && g.EntryPlaced(d)
    reads g, d
  {
    DiskShape(d);
    Names(d.clusters[g.dirCluster][g.dirSlot], g)
  }

  ghost predicate SameSector(f: FileInfo, g: FileInfo) {
    f.HasEntry() && g.HasEntry() && f.dirCluster == g.dirCluster && f.dirSlot == g.dirSlot
  }

  /** Entries of one sector do not overlap. */
  ghost predicate Apart(f: FileInfo, g: FileInfo) {
    SameSector(f, g) ==> f.dirSectorOffset + 32 <= g.dirSectorOffset || g.dirSectorOffset + 32 <= f.dirSectorOffset
  }

  /**
   * Whether g's entry on disk will name g after a call on f: a call that writes f's
   * entry writes the whole sector from f's snapshot of it.
   */
  ghost predicate NamedAfter(f: FileInfo, g: FileInfo, d: Disk, call: Call)
    requires d.Valid() && g.HasEntry() && g.EntryPlaced(d)
    reads f, g, d
  {
    if SameSector(f, g) && Changes(call) then Names(f.dirSectorBuf, g) else NamedOnDisk(g, d)
  }

  /** A call on f leaves every directory sector but f's own. */
  lemma OtherEntryStays(f: FileInfo, g: FileInfo, d: Disk, chains: map<int, seq<nat>>, cl: Clusters, ids: set<int>)
    requires f.id in ids && g.id in ids && OthersSpared(f, d, chains, cl) && Ready(f, d)
    requires EntryElsewhere(f, chains, ids) && EntryElsewhere(g, chains, ids) && g.HasEntry()
    requires g.dirCluster < |cl| && g.dirSlot < |cl[g.dirCluster]| && forall c :: 0 <= c < |cl| ==> |cl[c]| == d.geo.sectorsPerCluster
    requires f.HasEntry() ==> f.dirCluster != g.dirCluster || f.dirSlot != g.dirSlot
    ensures |d.clusters| == |cl| && g.dirSlot < |d.clusters[g.dirCluster]|
    ensures d.clusters[g.dirCluster][g.dirSlot] == cl[g.dirCluster][g.dirSlot]
  {
    hide FatsHold, DataImage, Covered, Times, Quot, Rem, ByteAt;
    EntryStays(g, d.fat, d.chains, chains, f.id, ids);
    var o :| o in chains && o !in ids && g.dirCluster in chains[o];
    assert o != f.id;
  }

  /** Entries that do not overlap: a change of one's fields leaves the other's. */
  lemma OtherFields(s: Sector, t: Sector, mine: nat, other: nat)
    requires mine + 32 <= 512 && other + 32 <= 512 && (mine + 32 <= other || other + 32 <= mine) && SameButFields(s, t, mine)
    ensures EntryCluster(t, other) == EntryCluster(s, other) && EntrySize(t, other) == EntrySize(s, other)
  {
  }

  /** What g's entry on disk says after a call on f without I/O errors. */
  lemma EntryAfter(f: FileInfo, g: FileInfo, d: Disk, call: Call, chains: map<int, seq<nat>>, cl: Clusters, was: Sector, ids: set<int>, named: bool)
    requires f.id in ids && g.id in ids && Ready(f, d) && Ready(g, d) && g.HasEntry() && Apart(f, g)
    requires OthersSpared(f, d, chains, cl) && EntryElsewhere(f, chains, ids) && EntryElsewhere(g, chains, ids)
    requires |cl| == |d.clusters| && forall c :: 0 <= c < |cl| ==> |cl[c]| == d.geo.sectorsPerCluster
    requires f.HasEntry() ==> SameButFields(was, f.dirSectorBuf, f.dirSectorOffset)
    requires if Changes(call) then Saved(f, d) else d.clusters == cl
    requires named == if SameSector(f, g) && Changes(call) then Names(was, g) else Names(cl[g.dirCluster][g.dirSlot], g)
    ensures NamedOnDisk(g, d) <==> named
  {
    hide FatsHold, DataImage, WellFormed, Times, Quot, Rem, ByteAt, OthersSpared, EntryElsewhere, EntryCluster, EntrySize;
    DiskShape(d);
    if SameSector(f, g) && Changes(call) {
      OtherFields(was, f.dirSectorBuf, f.dirSectorOffset, g.dirSectorOffset);
    } else if Changes(call) {
      OtherEntryStays(f, g, d, chains, cl, ids);
    }
  }

  /** After a call that has failed, the entries of all open files on disk are as before. */
  lemma EntryAfterFailure(f: FileInfo, g: FileInfo, d: Disk, chains: map<int, seq<nat>>, cl: Clusters, ids: set<int>)
    requires f.id in ids && g.id in ids && Ready(g, d) && g.HasEntry()
    requires OthersUntouched(f, d, chains, cl) && EntryElsewhere(g, chains, ids) && |cl| == |d.clusters|
    requires forall c :: 0 <= c < |cl| ==> |cl[c]| == d.geo.sectorsPerCluster
    ensures d.clusters[g.dirCluster] == cl[g.dirCluster]
  {
    hide FatsHold, DataImage, Times, Quot, Rem, ByteAt, AllChains, Disjoint, Covered;
    DiskShape(d);
    var o :| o in chains && o !in ids && g.dirCluster in chains[o];
    assert o != f.id && g.dirCluster < |cl|;
  }

  // ----- runs

  /** A call on file number `file`. */
  datatype JointCall = On(file: nat, call: Call)

  /** One call: its file follows the call, all other files keep their bytes. */
  ghost predicate JointStep(before: seq<seq<byte>>, c: JointCall, st: Status, answer: seq<byte>, after: seq<seq<byte>>, fat: Fat, whole: bool) {
    && |after| == |before| && c.file < |before|
    && Follows(before[c.file], c.call, st, answer, after[c.file], fat, whole)
    && forall j :: 0 <= j < |before| && j != c.file ==> after[j] == before[j]
  }

  ghost predicate JointRun(trace: seq<seq<seq<byte>>>, calls: seq<JointCall>, outcomes: seq<Status>, answers: seq<seq<byte>>, fats: seq<Fat>, whole: bool) {
    && |trace| == |calls| + 1 && |outcomes| == |answers| == |calls| == |fats|
    && forall i {:trigger trace[i]} :: 0 <= i < |calls| ==> JointStep(trace[i], calls[i], outcomes[i], answers[i], trace[i + 1], fats[i], whole)
  }

  /** Every file's remembered write position is the given sector. */
  ghost predicate CursorsAt(files: seq<FileInfo>, d: Disk, cursors: seq<nat>)
    reads files
  {
    |cursors| == |files| && forall i :: 0 <= i < |files| ==> CursorAt(files[i], d, cursors[i])
  }

  /** One call among open files, without what it does to their entries. */
  method PerformAmong(files: seq<FileInfo>, d: Disk, k: nat, call: Call, cursors: seq<nat>)
    returns (st: Status, answer: seq<byte>, cursors': seq<nat>)
    requires Open(files, d) && k < |files| && CursorsAt(files, d, cursors)
    requires d.geo.sectorsPerCluster > 0 && Allowed(files[k], d.geo.sectorsPerCluster, cursors[k], call)
    modifies files[k], d
    ensures d.Valid() && WellFormed(d.fat, d.chains) && d.ioFaults <= old(d.ioFaults)
    ensures !st.Done? ==> (st.Failed? && d.ioFaults < old(d.ioFaults)) || Stuck(files[k], d, call, st)
    ensures d.ioFaults == old(d.ioFaults) && old(NeedsNoClusters(files[k], d, call)) ==> st.Done?
    ensures !st.Hung? ==> Open(files, d) && CursorsAt(files, d, cursors')
    ensures !st.Hung? ==> JointStep(old(AllContents(files, d)), On(k, call), st, answer, AllContents(files, d), d.fat, d.ioFaults == old(d.ioFaults))
    ensures !st.Hung? ==> VR.Reaches(VR.Tables(old(d.fat), old(d.chains)), VR.Tables(d.fat, d.chains), Ids(files))
    ensures !st.Hung? ==> OthersSpared(files[k], d, old(d.chains), old(d.clusters))
    ensures !st.Hung? && files[k].HasEntry() ==>
              files[k].dirSectorOffset + 32 <= 512 && SameButFields(old(files[k].dirSectorBuf), files[k].dirSectorBuf, files[k].dirSectorOffset)
    ensures st.Failed? ==> OthersUntouched(files[k], d, old(d.chains), old(d.clusters))
    ensures !st.Hung? && d.ioFaults == old(d.ioFaults) && old(Saved(files[k], d)) ==> Saved(files[k], d)
    ensures st.Done? && Changes(call) && d.ioFaults == old(d.ioFaults) ==> Saved(files[k], d)
    ensures !Changes(call) ==> d.clusters == old(d.clusters)
  {
    hide FileContent, Isolated, OthersSpared, OthersUntouched, EntryElsewhere, ReadyOn, ContentOn, Follows, FatsHold, DataImage, WellFormed, Stuck,
         NeedsNoClusters, VR.Reaches, CursorAt, SameButFields, EntryCluster, EntrySize, Saved;
    ghost var chains, cl, ids := d.chains, d.clusters, Ids(files);
    ghost var was, buf := VR.Tables(d.fat, d.chains), files[k].dirSectorBuf;
    forall i | 0 <= i < |files|
      ensures ReadyOn(files[i], d.geo, chains, cl) && ContentOn(files[i], d.geo, chains, cl) == FileContent(files[i], d)
    {
      ReadyValues(files[i], d);
    }
    ghost var contents := AllContents(files, d);
    var cursor;
    st, answer, cursor := Perform(files[k], d, call, cursors[k]);
    cursors' := cursors[k := cursor];
    if !st.Hung? {
      KeptAtLeast(files[k], d, was.fat, chains, cl, buf, st);
      assert forall j :: 0 <= j < |files| && j != k ==> files[j] != files[k];
      assert files[k].id in ids;
      VR.ReachesMore(was, VR.Tables(d.fat, d.chains), {files[k].id}, ids);
      OwnEntry(files[k], d, chains, cl, ids);
      forall j | 0 <= j < |files| && j != k
        ensures Ready(files[j], d) && EntryElsewhere(files[j], d.chains, ids) && FileContent(files[j], d) == contents[j]
      {
        assert files[j].id in ids && files[k].id in ids;
        assert files[j] != files[k] && files[j].id != files[k].id;
        StillReady(files[k], files[j], d, chains, cl, ids);
      }
    }
  }

  /**
   * One call among open files.  Only its own file changes; of the entries on disk,
   * those that lie in other sectors stay, and one that shares the sector is written
   * from the snapshot that the called file's descriptor holds.  A call that fails
   * leaves all entries as they are.
   */
  method PerformOn(files: seq<FileInfo>, d: Disk, k: nat, call: Call, cursors: seq<nat>)
    returns (st: Status, answer: seq<byte>, cursors': seq<nat>)
    requires Open(files, d) && k < |files| && CursorsAt(files, d, cursors)
    requires d.geo.sectorsPerCluster > 0 && Allowed(files[k], d.geo.sectorsPerCluster, cursors[k], call)
    modifies files[k], d
    ensures d.Valid() && WellFormed(d.fat, d.chains) && d.ioFaults <= old(d.ioFaults)
    ensures !st.Done? ==> (st.Failed? && d.ioFaults < old(d.ioFaults)) || Stuck(files[k], d, call, st)
    ensures d.ioFaults == old(d.ioFaults) && old(NeedsNoClusters(files[k], d, call)) ==> st.Done?
    ensures !st.Hung? ==> Open(files, d) && CursorsAt(files, d, cursors')
    ensures !st.Hung? ==> JointStep(old(AllContents(files, d)), On(k, call), st, answer, AllContents(files, d), d.fat, d.ioFaults == old(d.ioFaults))
    ensures !st.Hung? ==> VR.Reaches(VR.Tables(old(d.fat), old(d.chains)), VR.Tables(d.fat, d.chains), Ids(files))
    ensures !st.Hung? && d.ioFaults == old(d.ioFaults) && SeparateEntries(files) && old(AllSaved(files, d)) ==> AllSaved(files, d)
    ensures st.Done? && d.ioFaults == old(d.ioFaults) ==>
              forall j {:trigger files[j]} :: 0 <= j < |files| && j != k && files[j].HasEntry() && Apart(files[k], files[j]) ==>
                (NamedOnDisk(files[j], d) <==> old(NamedAfter(files[k], files[j], d, call)))
    ensures st.Failed? ==>
              forall j {:trigger files[j]} :: 0 <= j < |files| && j != k && files[j].HasEntry() ==>
                (NamedOnDisk(files[j], d) <==> old(NamedOnDisk(files[j], d)))
  {
    hide FileContent, OthersSpared, OthersUntouched, EntryElsewhere, JointStep, FatsHold, DataImage, WellFormed, Stuck,
         NeedsNoClusters, VR.Reaches, CursorAt, SameButFields, EntryCluster, EntrySize, Allowed;
    ghost var chains, cl, ids := d.chains, d.clusters, Ids(files);
    ghost var buf := files[k].dirSectorBuf;
    DiskShape(d);
    st, answer, cursors' := PerformAmong(files, d, k, call, cursors);
    if !st.Hung? {
      DiskShape(d);
      if d.ioFaults == old(d.ioFaults) && SeparateEntries(files) && old(AllSaved(files, d)) {
        OthersSaved(files, d, k, chains, cl);
      }
      forall j | 0 <= j < |files| && j != k && files[j].HasEntry() && Apart(files[k], files[j]) && st.Done? && d.ioFaults == old(d.ioFaults)
        ensures NamedOnDisk(files[j], d) <==> old(NamedAfter(files[k], files[j], d, call))
      {
        assert files[j].id in ids && files[k].id in ids && files[j] != files[k];
        EntryAfter(files[k], files[j], d, call, chains, cl, buf, ids, old(NamedAfter(files[k], files[j], d, call)));
      }
      forall j | 0 <= j < |files| && j != k && files[j].HasEntry() && st.Failed?
        ensures NamedOnDisk(files[j], d) <==> old(NamedOnDisk(files[j], d))
      {
        assert files[j].id in ids && files[k].id in ids && files[j] != files[k];
        EntryAfterFailure(files[k], files[j], d, chains, cl, ids);
      }
    }
  }

  /** What a call keeps, whether it succeeds or fails. */
  lemma KeptAtLeast(f: FileInfo, d: Disk, fat: Fat, chains: map<int, seq<nat>>, cl: Clusters, buf: Sector, st: Status)
    requires Ready(f, d) && if st.Done? then Kept(f, d, fat, chains, cl, buf) else FailedSoft(f, d, fat, chains, cl, buf)
    ensures OthersSpared(f, d, chains, cl) && VR.Reaches(VR.Tables(fat, chains), VR.Tables(d.fat, d.chains), {f.id})
    ensures f.HasEntry() ==> f.dirSectorOffset + 32 <= 512 && SameButFields(buf, f.dirSectorBuf, f.dirSectorOffset)
    ensures st.Failed? ==> OthersUntouched(f, d, chains, cl)
  {
    hide FatsHold, DataImage, VR.Reaches, Times, Isolated;
    if st.Done? {
      IsolatedOthers(f, d, chains, cl);
    }
  }

  lemma OwnEntry(f: FileInfo, d: Disk, chains: map<int, seq<nat>>, cl: Clusters, ids: set<int>)
    requires Ready(f, d) && f.id in ids && OthersSpared(f, d, chains, cl) && EntryElsewhere(f, chains, ids)
    ensures EntryElsewhere(f, d.chains, ids)
  {
    EntryStays(f, d.fat, d.chains, chains, f.id, ids);
  }

  /** The other files' entries on disk after a call on file k, when none shares its sector. */
  lemma OthersSaved(files: seq<FileInfo>, d: Disk, k: nat, chains: map<int, seq<nat>>, cl: Clusters)
    requires k < |files| && Ready(files[k], d) && OthersSpared(files[k], d, chains, cl) && SeparateEntries(files) && Saved(files[k], d)
    requires forall i :: 0 <= i < |files| ==> EntryElsewhere(files[i], chains, Ids(files))
    requires forall i :: 0 <= i < |files| && i != k && files[i].HasEntry() ==> files[i].EntryOnDisk(cl)
    requires forall c :: 0 <= c < |cl| ==> |cl[c]| == d.geo.sectorsPerCluster
    ensures AllSaved(files, d)
  {
    hide Ready, OthersSpared, EntryElsewhere;
    forall j | 0 <= j < |files| ensures Saved(files[j], d) {
      if j != k && files[j].HasEntry() {
        assert files[j].id in Ids(files) && files[k].id in Ids(files);
        OtherEntryStays(files[k], files[j], d, chains, cl, Ids(files));
      }
    }
  }

  lemma JointRunGrows(trace: seq<seq<seq<byte>>>, calls: seq<JointCall>, outcomes: seq<Status>, answers: seq<seq<byte>>, fats: seq<Fat>, n: nat,
                      next: seq<seq<byte>>, outcome: Status, answer: seq<byte>, fat: Fat, whole: bool)
    requires n < |calls| && |trace| == n + 1 && JointRun(trace, calls[..n], outcomes, answers, fats, whole)
    requires JointStep(trace[n], calls[n], outcome, answer, next, fat, whole)
    ensures JointRun(trace + [next], calls[..n + 1], outcomes + [outcome], answers + [answer], fats + [fat], whole)
  {
    hide JointStep;
  }

  lemma JointRunWeakens(trace: seq<seq<seq<byte>>>, calls: seq<JointCall>, outcomes: seq<Status>, answers: seq<seq<byte>>, fats: seq<Fat>,
                        whole: bool, whole': bool)
    requires JointRun(trace, calls, outcomes, answers, fats, whole) && (whole' ==> whole)
    ensures JointRun(trace, calls, outcomes, answers, fats, whole')
  {
    hide JointStep;
    forall i | 0 <= i < |calls| ensures JointStep(trace[i], calls[i], outcomes[i], answers[i], trace[i + 1], fats[i], whole') {
      StepWeakens(trace[i], calls[i], outcomes[i], answers[i], trace[i + 1], fats[i], whole, whole');
    }
  }

  lemma StepWeakens(before: seq<seq<byte>>, c: JointCall, st: Status, answer: seq<byte>, after: seq<seq<byte>>, fat: Fat, whole: bool, whole': bool)
    requires JointStep(before, c, st, answer, after, fat, whole) && (whole' ==> whole)
    ensures JointStep(before, c, st, answer, after, fat, whole')
  {
    FollowsWeakens(before[c.file], c.call, st, answer, after[c.file], fat, whole, whole');
  }

  /**
   * Any run of direct writes, truncations and reads on any of the open files, as
   * far as the calls are allowed.  The volume goes through whole operations of the
   * open files only; each call changes its own file the way a byte string changes,
   * or fails and changes nothing, and no other file's bytes; reads answer from their
   * file; and when no two entries share a sector, all entries on disk stay up to
   * date.  The run stops early only at a call that is not allowed, or at one whose
   * search for clusters never ends.
   */
  method JointSession(files: seq<FileInfo>, d: Disk, calls: seq<JointCall>, cursors0: seq<nat>)
    returns (st: Status, done: nat, cursors: seq<nat>, outcomes: seq<Status>, answers: seq<seq<byte>>,
             ghost trace: seq<seq<seq<byte>>>, ghost fats: seq<Fat>)
    requires Open(files, d) && d.Valid() && WellFormed(d.fat, d.chains)
    requires d.geo.sectorsPerCluster > 0 && CursorsAt(files, d, cursors0)
    requires forall k :: 0 <= k < |calls| ==> calls[k].file < |files|
    modifies files, d
    ensures d.Valid() && WellFormed(d.fat, d.chains) && d.ioFaults <= old(d.ioFaults)
    ensures done <= |calls| && JointRun(trace, calls[..done], outcomes, answers, fats, d.ioFaults == old(d.ioFaults))
    ensures trace[0] == old(AllContents(files, d)) && !st.Failed?
    ensures st.Done? ==> Open(files, d) && trace[done] == AllContents(files, d) && CursorsAt(files, d, cursors)
    ensures st.Done? && done > 0 ==> fats[done - 1] == d.fat
    ensures st.Done? ==> VR.Reaches(VR.Tables(old(d.fat), old(d.chains)), VR.Tables(d.fat, d.chains), Ids(files))
    ensures st.Done? && d.ioFaults == old(d.ioFaults) && SeparateEntries(files) && old(AllSaved(files, d)) ==> AllSaved(files, d)
    ensures st.Done? && done < |calls| ==> !Allowed(files[calls[done].file], d.geo.sectorsPerCluster, cursors[calls[done].file], calls[done].call)
    ensures st.Hung? ==> done < |calls| && Stuck(files[calls[done].file], d, calls[done].call, Hung)
  {
    hide Open, JointStep, FatsHold, DataImage, WellFormed, VR.Reaches, CursorAt, AllSaved, SeparateEntries, Stuck, NeedsNoClusters;
    st, done, cursors, outcomes, answers, trace, fats := Done, 0, cursors0, [], [], [AllContents(files, d)], [];
    ghost var was := VR.Tables(d.fat, d.chains);
    VR.ReachesItself(was, Ids(files));
    while done < |calls|
      invariant done <= |calls| && st.Done? && d.Valid() && Open(files, d) && CursorsAt(files, d, cursors) && d.ioFaults <= old(d.ioFaults)
      invariant WellFormed(d.fat, d.chains) && |trace| == done + 1
      invariant JointRun(trace, calls[..done], outcomes, answers, fats, d.ioFaults == old(d.ioFaults))
      invariant trace[0] == old(AllContents(files, d)) && trace[done] == AllContents(files, d)
      invariant done > 0 ==> fats[done - 1] == d.fat
      invariant VR.Reaches(was, VR.Tables(d.fat, d.chains), Ids(files))
      invariant d.ioFaults == old(d.ioFaults) && SeparateEntries(files) && old(AllSaved(files, d)) ==> AllSaved(files, d)
    {
      var c := calls[done];
      if !Allowed(files[c.file], d.geo.sectorsPerCluster, cursors[c.file], c.call) {
        return;
      }
      ghost var mid, faults := VR.Tables(d.fat, d.chains), d.ioFaults;
      var outcome, answer;
      outcome, answer, cursors := PerformOn(files, d, c.file, c.call, cursors);
      JointRunWeakens(trace, calls[..done], outcomes, answers, fats, faults == old(d.ioFaults), d.ioFaults == old(d.ioFaults));
      if outcome.Hung? {
        st := Hung;
        return;
      }
      OpenVolume(files, d, c.file);
      VR.ReachesOn(was, mid, VR.Tables(d.fat, d.chains), Ids(files));
      StepWeakens(trace[done], c, outcome, answer, AllContents(files, d), d.fat, d.ioFaults == faults, d.ioFaults == old(d.ioFaults));
      JointRunGrows(trace, calls, outcomes, answers, fats, done, AllContents(files, d), outcome, answer, d.fat, d.ioFaults == old(d.ioFaults));
      trace := trace + [AllContents(files, d)];
      fats := fats + [d.fat];
      outcomes := outcomes + [outcome];
      answers := answers + [answer];
      done := done + 1;
    }
  }

  lemma OpenVolume(files: seq<FileInfo>, d: Disk, k: nat)
    requires Open(files, d) && k < |files|
    ensures d.Valid() && WellFormed(d.fat, d.chains)
  {
    assert Ready(files[k], d);
  }

  /**
   * Two files open at once with their entries in one sector.  A byte is appended to
   * the second, then one is written to the first: the first one's snapshot still
   * has the second's old size, and puts it back on disk.  Neither write needs a
   * cluster if the second file's last one has room.
   */
  method OldSizeComesBack(files: seq<FileInfo>, d: Disk, cursors0: seq<nat>, b: byte) returns (st: Status)
    requires |files| == 2 && Open(files, d) && CursorsAt(files, d, cursors0) && d.geo.sectorsPerCluster > 0
    requires SameSector(files[0], files[1]) && Apart(files[0], files[1]) && files[0].dirSectorBuf == files[1].dirSectorBuf
    requires forall i :: 0 <= i < 2 ==> files[i].AtStart() && files[i].firstCluster != 0 && files[i].fileSize + 1 < 0x1_0000_0000
    requires AllSaved(files, d) && d.ioFaults == 0
    modifies files, d
    ensures old(NeedsNoClusters(files[1], d, Write([b], files[1].fileSize))) ==> st.Done?
    ensures st.Done? ==> Open(files, d) && |FileContent(files[1], d)| == old(files[1].fileSize) + 1
    ensures st.Done? ==> !NamedOnDisk(files[1], d)
  {
    hide FatsHold, DataImage, WellFormed, EntryCluster, EntrySize, VR.Reaches, Times, Quot, IsChain, EntryElsewhere,
         CursorAt, FileInfo.EntryOnDisk, Stuck, NeedsNoClusters;
    var cursors, answer;
    var size := files[1].fileSize;
    assert |AllContents(files, d)[1]| == size;
    st, answer, cursors := PerformOn(files, d, 1, Write([b], size), cursors0);
    if st.Done? {
      FirstByteFits(files[0], d, b);
      st, answer, cursors := PerformOn(files, d, 0, Write([b], 0), cursors);
    }
  }

  lemma FirstByteFits(f: FileInfo, d: Disk, b: byte)
    requires Ready(f, d) && d.geo.sectorsPerCluster > 0 && f.firstCluster != 0
    ensures NeedsNoClusters(f, d, Write([b], 0))
  {
    hide FatsHold, DataImage, WellFormed;
    assert f.id in d.chains && |d.chains[f.id]| > 0;
    TimesMono(1, |d.chains[f.id]|, d.geo.sectorsPerCluster);
    TimesNext(0, d.geo.sectorsPerCluster);
  }
}
