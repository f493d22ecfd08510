/** The parts of a growing ftruncate: linking a new block with checks, rolling it back, copying the old data. */
module Growing {
  import opened Chains
  import opened Volume
  import opened Linking
  import opened Contents
  import opened Arith

  /** The entries outside the n clusters from start are those of fat. */
  ghost predicate KeptOutside(fat: Fat, fat': Fat, start: nat, n: nat) {
    |fat'| == |fat| && forall c :: 0 <= c < |fat| && !(start <= c < start + n) ==> fat'[c] == fat[c]
  }

  /**
   * Allocate and chain the new block, stopping at the first error; allocatedCount
   * counts the clusters marked used.
   */
  method LinkChecked(d: Disk, start: nat, n: nat) returns (failed: bool, allocatedCount: nat)
    requires d.Valid() && n > 0 && start + n <= |d.fat|
    modifies d`sectors, d`fat, d`fatFaults
    ensures d.Valid() && allocatedCount <= n && KeptOutside(old(d.fat), d.fat, start, allocatedCount)
    ensures !failed ==> d.fat == LinkRun(old(d.fat), start, n) && d.fatFaults == old(d.fatFaults)
    ensures failed ==> d.fatFaults == old(d.fatFaults) - 1
  {
    allocatedCount, failed := 0, false;
    var i := 0;
    while i < n
      invariant i <= n && allocatedCount == i && d.Valid() && d.fatFaults == old(d.fatFaults) && !failed
      invariant d.fat == LinkRun(old(d.fat), start, i)
    {
      var cluster := start + i;
      ghost var before := d.fat;
      failed := d.AllocateCluster(cluster);
      if failed {
        break;
      }
      allocatedCount := i + 1;
      if i > 0 {
        failed := d.ChainCluster(start + i - 1, cluster);
        if failed {
          break;
        }
        LinkNext(old(d.fat), start, i);
      }
      i := i + 1;
    }
  }

  /** Free the first m clusters of the block again; the error codes are ignored. */
  method RollBack(d: Disk, start: nat, m: nat)
    requires d.Valid() && start + m <= |d.fat|
    modifies d`sectors, d`fat, d`fatFaults
    ensures d.Valid() && d.fatFaults <= old(d.fatFaults) && KeptOutside(old(d.fat), d.fat, start, m)
    ensures old(d.fatFaults) == 0 ==> forall c :: start <= c < start + m ==> d.fat[c] == 0
  {
    for i := 0 to m
      invariant d.Valid() && d.fatFaults <= old(d.fatFaults) && KeptOutside(old(d.fat), d.fat, start, m)
      invariant old(d.fatFaults) == 0 ==> forall c :: start <= c < start + i ==> d.fat[c] == 0
    {
      var e := d.DeallocateCluster(start + i);
    }
  }

  /** The first k sectors on the new chain are those on the old one, the others are as they were. */
  ghost predicate Copied(cl0: Clusters, ch0: seq<nat>, cl: Clusters, ch: seq<nat>, spc: nat, k: nat) {
    && Holds(cl0, ch0, spc) && Holds(cl, ch, spc) && k <= Times(|ch0|, spc) && k <= Times(|ch|, spc)
    && (forall j {:trigger SectorAt(cl, ch, spc, j)} :: 0 <= j < k ==> SectorAt(cl, ch, spc, j) == SectorAt(cl0, ch0, spc, j))
    && Holds(cl0, ch, spc)
    && forall j {:trigger SectorAt(cl, ch, spc, j)} :: k <= j < Times(|ch|, spc) ==> SectorAt(cl, ch, spc, j) == SectorAt(cl0, ch, spc, j)
  }

  lemma CopiedNext(cl0: Clusters, ch0: seq<nat>, cl: Clusters, ch: seq<nat>, spc: nat, j: nat, s: nat)
    requires j < |ch0| && j < |ch| && s < spc && Distinct(ch)
    requires Copied(cl0, ch0, cl, ch, spc, Times(j, spc) + s)
    ensures Copied(cl0, ch0, Stored(cl, ch[j], s, cl0[ch0[j]][s]), ch, spc, Times(j, spc) + s + 1)
  {
    var k := Times(j, spc) + s;
    var sector := cl0[ch0[j]][s];
    var cl' := Stored(cl, ch[j], s, sector);
    SectorStored(cl, ch, spc, j, s, sector);
    TimesMono(j, |ch|, spc);
    TimesMono(j, |ch0|, spc);
    SamePlace(k, j, s, spc);
    forall i | 0 <= i < Times(|ch|, spc)
      ensures SectorAt(cl', ch, spc, i) == if i < k + 1 then SectorAt(cl0, ch0, spc, i) else SectorAt(cl0, ch, spc, i)
    {
      assert SectorAt(cl', ch, spc, i) == if i == k then sector else SectorAt(cl, ch, spc, i);
    }
  }

  /** A copy does not depend on clusters outside the new chain. */
  lemma CopiedFrame(cl0: Clusters, ch0: seq<nat>, cl: Clusters, ch: seq<nat>, spc: nat, k: nat, cl': Clusters)
    requires Copied(cl0, ch0, cl, ch, spc, k) && |cl'| == |cl|
    requires forall c :: c in ch && c < |cl| ==> cl'[c] == cl[c]
    ensures Copied(cl0, ch0, cl', ch, spc, k)
  {
    SectorsFrame(cl, cl', ch, spc);
  }

  /**
   * After a copy of size bytes the first length bytes of the new chain are the old
   * ones, then zeros, exactly when both kinds of left-over bytes are zero.
   */
  lemma ResizedByCopy(cl0: Clusters, ch0: seq<nat>, cl: Clusters, ch: seq<nat>, spc: nat, size: nat, length: nat)
    requires Copied(cl0, ch0, cl, ch, spc, CeilSectors(size)) && CeilSectors(size) * 512 <= length <= Times(|ch|, spc) * 512
    ensures size <= CeilSectors(size) * 512 <= Times(|ch0|, spc) * 512
    ensures Content(cl, ch, spc, length) == Resized(Content(cl0, ch0, spc, size), length) <==>
            ZerosOnChain(cl0, ch0, spc, size, CeilSectors(size) * 512) && ZerosOnChain(cl0, ch, spc, CeilSectors(size) * 512, length)
  {
    hide SectorAt, Times;
    var now, want := Content(cl, ch, spc, length), Resized(Content(cl0, ch0, spc, size), length);
    forall i | 0 <= i < length
      ensures ByteAt(cl, ch, spc, i) == if i / 512 < CeilSectors(size) then ByteAt(cl0, ch0, spc, i) else ByteAt(cl0, ch, spc, i)
    {
      assert SectorAt(cl, ch, spc, i / 512)
          == if i / 512 < CeilSectors(size) then SectorAt(cl0, ch0, spc, i / 512) else SectorAt(cl0, ch, spc, i / 512);
    }
    if now == want {
      forall i | size <= i < length ensures ByteAt(cl, ch, spc, i) == 0 {
        assert now[i] == want[i];
      }
      forall i | size <= i < CeilSectors(size) * 512 ensures ByteAt(cl0, ch0, spc, i) == 0 {
        assert ByteAt(cl, ch, spc, i) == ByteAt(cl0, ch0, spc, i);
      }
      forall i | CeilSectors(size) * 512 <= i < length ensures ByteAt(cl0, ch, spc, i) == 0 {
        assert ByteAt(cl, ch, spc, i) == ByteAt(cl0, ch, spc, i);
      }
    }
  }

  lemma CopiedBytes(cl0: Clusters, ch0: seq<nat>, cl: Clusters, ch: seq<nat>, spc: nat, size: nat)
    requires Copied(cl0, ch0, cl, ch, spc, CeilSectors(size))
    ensures size <= Times(|ch0|, spc) * 512 && size <= Times(|ch|, spc) * 512
    ensures Content(cl, ch, spc, size) == Content(cl0, ch0, spc, size)
  {
    forall i | 0 <= i < size ensures ByteAt(cl, ch, spc, i) == ByteAt(cl0, ch0, spc, i) {
      assert SectorAt(cl, ch, spc, i / 512) == SectorAt(cl0, ch0, spc, i / 512);
    }
  }

  /** Sectors left of a copy of size bytes after k sectors. */
  function LeftToCopy(size: nat, k: nat): nat {
    if k * 512 < size then size - k * 512 else 0
  }

  /** One sector of the copy. */
  method CopySector(d: Disk, oldCluster: nat, newCluster: nat, sec: nat, ghost ch0: seq<nat>, ghost ch: seq<nat>, ghost j: nat, ghost cl0: Clusters)
    returns (err: bool)
    requires d.Valid() && 2 <= oldCluster < |d.fat| && 2 <= newCluster < |d.fat| && sec < d.geo.sectorsPerCluster
    requires j < |ch0| && ch0[j] == oldCluster && j < |ch| && ch[j] == newCluster && Distinct(ch)
    requires Copied(cl0, ch0, d.clusters, ch, d.geo.sectorsPerCluster, Times(j, d.geo.sectorsPerCluster) + sec)
    requires oldCluster < |cl0| && d.clusters[oldCluster] == cl0[oldCluster]
    modifies d`sectors, d`clusters, d`ioFaults
    ensures d.Valid() && |old(d.clusters)[newCluster]| == d.geo.sectorsPerCluster
    ensures if err then d.ioFaults < old(d.ioFaults) && d.clusters == old(d.clusters)
            else d.ioFaults == old(d.ioFaults) && exists sector :: d.clusters == Stored(old(d.clusters), newCluster, sec, sector)
    ensures !err ==> Copied(cl0, ch0, d.clusters, ch, d.geo.sectorsPerCluster, Times(j, d.geo.sectorsPerCluster) + sec + 1)
  {
    var buffer;
    err, buffer := d.ReadSector(d.geo.SectorOf(oldCluster, sec), oldCluster, sec);
    if err {
      return;
    }
    CopiedNext(cl0, ch0, d.clusters, ch, d.geo.sectorsPerCluster, j, sec);
    err := d.WriteSector(d.geo.SectorOf(newCluster, sec), newCluster, sec, buffer);
  }

  /** The copy loop: copySize bytes, sector by sector, from the old chain to the new block. */
  method CopyData(d: Disk, first: nat, start: nat, n: nat, copySize: nat, ghost ch0: seq<nat>) returns (err: bool)
    requires d.Valid() && |d.fat| <= END_MARK && IsChain(d.fat, ch0) && ch0[0] == first
    requires 2 <= start && start + n <= |d.fat| && (forall c :: c in ch0 ==> !(start <= c < start + n))
    requires copySize <= Times(|ch0|, d.geo.sectorsPerCluster) * 512 && |ch0| <= n
    modifies d`sectors, d`clusters, d`ioFaults
    ensures d.Valid() && |d.clusters| == |old(d.clusters)|
    ensures forall c :: 0 <= c < |d.clusters| && !(start <= c < start + n) ==> d.clusters[c] == old(d.clusters)[c]
    ensures if err then d.ioFaults < old(d.ioFaults) else d.ioFaults == old(d.ioFaults)
    ensures !err ==> Copied(old(d.clusters), ch0, d.clusters, Run(start, n), d.geo.sectorsPerCluster, CeilSectors(copySize))
  {
    hide FatsHold, DataImage, Quot, Rem, SectorAt;
    var spc := d.geo.sectorsPerCluster;
    ghost var ch := Run(start, n);
    var oldCluster, newCluster, remaining := first, start, copySize;
    ghost var j, k := 0, 0;
    ChainHoldsHere(d, ch0);
    ChainHoldsHere(d, ch);
    err := false;
    while remaining > 0
      invariant d.Valid() && d.ioFaults == old(d.ioFaults) && |d.clusters| == |old(d.clusters)|
      invariant forall c :: 0 <= c < |d.clusters| && !(start <= c < start + n) ==> d.clusters[c] == old(d.clusters)[c]
      invariant j < |ch0| && oldCluster == ch0[j] && newCluster == start + j
      invariant remaining == LeftToCopy(copySize, k) && k <= CeilSectors(copySize) && (remaining > 0 ==> k == Times(j, spc))
      invariant Copied(old(d.clusters), ch0, d.clusters, ch, spc, k)
      decreases remaining
    {
      var sec := 0;
      while sec < spc && remaining > 0
        invariant d.Valid() && d.ioFaults == old(d.ioFaults) && |d.clusters| == |old(d.clusters)|
        invariant forall c :: 0 <= c < |d.clusters| && !(start <= c < start + n) ==> d.clusters[c] == old(d.clusters)[c]
        invariant sec <= spc && k == Times(j, spc) + sec
        invariant remaining == LeftToCopy(copySize, k) && k <= CeilSectors(copySize)
        invariant Copied(old(d.clusters), ch0, d.clusters, ch, spc, k)
      {
        assert oldCluster in ch0;
        err := CopySector(d, oldCluster, newCluster, sec, ch0, ch, j, old(d.clusters));
        if err {
          return;
        }
        remaining := remaining - (if remaining >= 512 then 512 else remaining);
        sec := sec + 1;
        k := k + 1;
      }
      if remaining > 0 {
        var nextOld := d.ChainedCluster(oldCluster);
        assert j < |ch0| - 1 ==> d.fat[ch0[j]] == ch0[j + 1];
        if nextOld == 0 || nextOld >= END_MARK {
          break;
        }
        oldCluster, newCluster := nextOld, newCluster + 1;
        j := j + 1;
      }
    }
  }

  lemma ChainHoldsHere(d: Disk, ch: seq<nat>)
    requires d.Valid() && forall j :: 0 <= j < |ch| ==> 2 <= ch[j] < |d.fat|
    ensures Holds(d.clusters, ch, d.geo.sectorsPerCluster)
  {
  }
}
