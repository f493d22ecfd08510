/** Deleting a file: its directory entry is wiped and its chain is released. */
module Deletion {
  import opened Chains
  import opened Volume
  import opened DirFields
  import opened DirRecords
  import opened DirCursor
  import opened Directory
  import opened DirEntries
  import Contents
  import VR = VolumeRuns

  /**
   * The loop that removes a cluster chain from both FATs.  It is run at least
   * once, so for an empty file, whose first cluster is 0, it clears entry 0.
   */
  method ReleaseClusters(d: Disk, first: nat, ghost ch: seq<nat>)
    requires d.Valid() && d.fatFaults == 0 && 2 <= |d.fat| <= END_MARK
    requires if first == 0 then ch == [0] && d.fat[0] >= END_MARK else IsChain(d.fat, ch) && ch[0] == first
    modifies d`sectors, d`fat, d`fatFaults
    ensures d.Valid() && d.fatFaults == 0 && d.fat == Freed(old(d.fat), ch)
  {
    var cluster := first;
    ghost var i := 0;
    if first != 0 {
      ChainIsDistinct(d.fat, ch);
    }
    while true
      invariant i < |ch| && d.Valid() && d.fatFaults == 0 && cluster == ch[i]
      invariant d.fat == Freed(old(d.fat), ch[..i])
      decreases |ch| - i
    {
      assert ch[i] !in ch[..i];
      var next := d.ChainedCluster(cluster);
      assert i < |ch| - 1 ==> old(d.fat)[ch[i]] == ch[i + 1];
      var e := d.DeallocateCluster(cluster);
      assert ch[..i + 1] == ch[..i] + [ch[i]];
      cluster := next;
      i := i + 1;
      if !(cluster > 0 && cluster < END_MARK) {
        break;
      }
    }
    assert ch[..i] == ch;
  }

  /** Deleting keeps the volume well formed exactly when the file has a first cluster. */
  lemma DeleteKeepsVolume(fat: Fat, chains: map<int, seq<nat>>, id: int, first: nat)
    requires WellFormed(fat, chains)
    requires if first == 0 then id !in chains else id in chains && chains[id][0] == first
    ensures var ch := if first == 0 then [0] else chains[id];
            WellFormed(Freed(fat, ch), chains - {id}) <==> first != 0
  {
    if first != 0 {
      Released(fat, chains, id);
    } else {
      assert Freed(fat, [0])[0] == 0;
    }
  }

  /** The other owners of the directory's volume keep chains and contents. */
  ghost predicate OthersSame(v: View, w: View, dir: int, id: int) {
    && |w.clusters| == |v.clusters| && w.chains == v.chains - {id}
    && forall o, x :: o in w.chains && o != dir && x in v.chains[o] && x < |v.clusters| ==> w.clusters[x] == v.clusters[x]
  }

  /** The file that the 8.3 slot of r stands for, and its chain; an empty file has none. */
  ghost predicate Stands(r: Record, fat: Fat, chains: map<int, seq<nat>>, id: int) {
    && r.File?
    && if EntryCluster(r.short, 0) == 0 then id !in chains && |fat| >= 2 && fat[0] >= END_MARK
       else id in chains && chains[id] != [] && chains[id][0] == EntryCluster(r.short, 0)
  }

  /**
   * Deleting a file.  Afterwards the walk shows the other files of the directory
   * and no other file has changed.  If the file had clusters, they are free and the
   * volume is well formed; deleting an empty file clears entry 0 of the FAT.
   */
  method DeleteFile(c: Cursor, ghost id: int, ghost before: seq<Record>, ghost r: Record, ghost after: seq<Record>)
    requires c.Valid() && c.dirSector != -1 && HoldsRecords(c.Slots(), before + [r] + after) && c.At() == |Flatten(before)| - 1
    requires id != c.id && Stands(r, c.d.fat, c.d.chains, id)
    modifies c, c.d`sectors, c.d`fat, c.d`clusters, c.d`chains, c.d`fatFaults, c.d`ioFaults
    ensures c.d.Valid() && OthersSame(old(Snapshot(c.d)), Snapshot(c.d), c.id, id) && c.id in c.d.chains
    ensures WellFormed(c.d.fat, c.d.chains) <==> EntryCluster(r.short, 0) != 0
    ensures EntryCluster(r.short, 0) != 0 ==>
              Tree(c.d, c.id) && VR.Became(VR.Tables(old(c.d.fat), old(c.d.chains)), VR.Release(id), VR.Tables(c.d.fat, c.d.chains))
    ensures EntryCluster(r.short, 0) != 0 ==> FreeCount(c.d.fat) == FreeCount(old(c.d.fat)) + |old(c.d.chains)[id]|
    ensures EntryCluster(r.short, 0) == 0 ==> c.d.chains == old(c.d.chains) && c.d.fat == old(c.d.fat)[0 := 0]
    ensures Contents.Holds(c.d.clusters, c.d.chains[c.id], c.d.geo.sectorsPerCluster)
    ensures var slots := SlotsIn(c.d.clusters, c.d.chains[c.id], c.d.geo.sectorsPerCluster);
            Readable(slots) && Listing(slots, 0) == Items(before) + Items(after)
  {
    hide SlotsIn, HoldsRecords, Readable, Listing, Cursor.Placed, Flatten, Items, FatsHold, DataImage, AllChains, Disjoint,
         Covered, FreeCount, VR.Reaches, VR.Became, EntryCluster, WellFormed, OthersSame;
    ghost var v := Snapshot(c.d);
    ghost var ch := if EntryCluster(r.short, 0) == 0 then [0] else c.d.chains[id];
    var raw := DeleteEntry(c, before, r, after);
    OwnDirectory(c.d, c.id);
    FileReleased(c.d.fat, c.d.chains, id, c.id, EntryCluster(raw, 0));
    ReleaseClusters(c.d, EntryCluster(raw, 0), ch);
    c.d.chains := c.d.chains - {id};
    OthersAfter(v, Snapshot(c.d), c.id, id);
  }

  lemma OthersAfter(v: View, w: View, dir: int, id: int)
    requires |w.clusters| == |v.clusters| && w.chains == v.chains - {id}
    requires forall o, x :: o in v.chains && o != dir && x in v.chains[o] && x < |v.clusters| ==> w.clusters[x] == v.clusters[x]
    ensures OthersSame(v, w, dir, id)
  {
  }

  /** The FAT and the chains after the file's chain, or entry 0, has been freed. */
  lemma FileReleased(fat: Fat, chains: map<int, seq<nat>>, id: int, dir: int, first: nat)
    requires WellFormed(fat, chains) && dir in chains && dir != id
    requires if first == 0 then id !in chains else id in chains && chains[id] != [] && chains[id][0] == first
    ensures first != 0 ==> IsChain(fat, chains[id])
    ensures dir in chains - {id} && (chains - {id})[dir] == chains[dir]
    ensures var fat' := Freed(fat, if first == 0 then [0] else chains[id]);
            && (WellFormed(fat', chains - {id}) <==> first != 0) && |fat'| == |fat|
            && (first != 0 ==> VR.Became(VR.Tables(fat, chains), VR.Release(id), VR.Tables(fat', chains - {id})))
            && (first != 0 ==> FreeCount(fat') == FreeCount(fat) + |chains[id]|)
            && (first == 0 ==> chains - {id} == chains && fat' == fat[0 := 0])
  {
    hide AllChains, Disjoint, Covered, FreeCount, IsChain;
    DeleteKeepsVolume(fat, chains, id, first);
    if first != 0 {
      FileChain(fat, chains, id);
      FreedCount(fat, chains[id]);
    }
  }

  lemma FileChain(fat: Fat, chains: map<int, seq<nat>>, id: int)
    requires WellFormed(fat, chains) && id in chains
    ensures IsChain(fat, chains[id]) && Distinct(chains[id]) && forall c :: c in chains[id] ==> 2 <= c < |fat| && fat[c] != 0
    ensures chains[id][0] != 0
  {
    ChainIsDistinct(fat, chains[id]);
    forall c | c in chains[id] ensures 2 <= c < |fat| && fat[c] != 0 {
      OwnedIsUsed(fat, chains[id], c);
    }
  }
}
