/** The searches for free clusters, over the bytes of FAT1. */
module Allocator {
  import opened Bytes
  import opened Chains
  import opened Volume

  predicate FreeAt(fat: Fat, c: nat) {
    2 <= c < |fat| && fat[c] == 0
  }

  ghost predicate NoneFree(fat: Fat) {
    forall c :: 2 <= c < |fat| ==> fat[c] != 0
  }

  ghost predicate SomeRun(fat: Fat, n: nat) {
    exists s: nat :: RunAt(fat, s, n)
  }

  /** r is the first free cluster at or after m, going round the end to 2; or 0 when nothing is free. */
  ghost predicate CyclicFirst(fat: Fat, m: nat, r: nat) {
    if r == 0 then NoneFree(fat)
    else
      && FreeAt(fat, r)
      && if m <= r then forall c :: m <= c < r ==> fat[c] != 0
         else (forall c :: m <= c < |fat| ==> fat[c] != 0) && (forall c :: 2 <= c < r ==> fat[c] != 0)
  }

  lemma CyclicFirstIsUnique(fat: Fat, m: nat, r: nat, r': nat)
    requires 2 <= m && CyclicFirst(fat, m, r) && CyclicFirst(fat, m, r')
    ensures r == r'
  {
  }

  predicate ZeroEntry(sector: Sector, o: nat)
    requires o + 4 <= 512
  {
    sector[o] == 0 && sector[o + 1] == 0 && sector[o + 2] == 0 && sector[o + 3] == 0
  }

  /** The zero test on the bytes of entry j of FAT sector i. */
  lemma ZeroEntryMeansFree(d: Disk, i: nat, j: nat)
    requires d.Valid() && i < d.geo.sectorsPerFat && j < 128
    ensures d.geo.Fat1() + i < |d.sectors| && i * 128 + j < |d.fat|
    ensures ZeroEntry(d.sectors[d.geo.Fat1() + i], j * 4) <==> d.fat[i * 128 + j] == 0
  {
    var c := i * 128 + j;
    EntryRead(d.geo, d.sectors, d.fat, c);
    assert c / 128 == i && EntryOffset(c) == j * 4;
  }

  ghost predicate AllUsed(fat: Fat, lo: nat, hi: nat) {
    forall c :: lo <= c < hi && c < |fat| ==> fat[c] != 0
  }

  /** One FAT sector of a search: its first free cluster from entry j up to entry maxJ, or 0. */
  method ScanSector(d: Disk, i: nat, j: nat, maxJ: nat) returns (r: nat)
    requires d.Valid() && i < d.geo.sectorsPerFat && j <= maxJ < 128
    ensures r == 0 ==> AllUsed(d.fat, MaxOf(2, i * 128 + j), i * 128 + maxJ + 1)
    ensures r != 0 ==> FreeAt(d.fat, r) && i * 128 + j <= r <= i * 128 + maxJ
    ensures r != 0 ==> AllUsed(d.fat, MaxOf(2, i * 128 + j), r)
  {
    assert d.geo.Fat1() + i < |d.sectors|;
    var fatSector := d.sectors[d.geo.Fat1() + i];
    var o := j * 4;
    ghost var e := j;
    while o <= maxJ * 4
      invariant o == e * 4 && j <= e <= maxJ + 1
      invariant AllUsed(d.fat, MaxOf(2, i * 128 + j), i * 128 + e)
    {
      ZeroEntryMeansFree(d, i, e);
      if i * 128 + o / 4 >= 2 && ZeroEntry(fatSector, o) {
        return i * 128 + o / 4;
      }
      o := o + 4;
      e := e + 1;
    }
    return 0;
  }

  function MaxOf(a: nat, b: nat): nat {
    if a < b then b else a
  }

  /** find_free_cluster: forward from firstCluster, then round from 2. */
  method FindFreeCluster(d: Disk, from: nat) returns (r: nat)
    requires d.Valid() && from <= |d.fat|
    ensures CyclicFirst(d.fat, MaxOf(from, 2), r)
  {
    var firstCluster := if from < 2 then 2 else from;
    var i: nat := firstCluster / 128;
    var j: nat := firstCluster % 128;
    while i < d.geo.sectorsPerFat
      invariant i <= d.geo.sectorsPerFat && j < 128
      invariant firstCluster <= i * 128 + j
      invariant AllUsed(d.fat, firstCluster, i * 128 + j)
    {
      r := ScanSector(d, i, j, 127);
      if r != 0 {
        return;
      }
      j := 0;
      i := i + 1;
    }

    if firstCluster > 2 {
      var wrapEnd := firstCluster - 1;
      var lastI := wrapEnd / 128;
      i := 0;
      while i <= lastI
        invariant i <= lastI + 1
        invariant AllUsed(d.fat, 2, if i <= lastI then i * 128 else firstCluster)
      {
        r := ScanSector(d, i, 0, if i == lastI then wrapEnd % 128 else 127);
        if r != 0 {
          return;
        }
        i := i + 1;
      }
    }
    return 0;
  }

  /**
   * What find_contiguous_clusters does: it finds a run, finds that nothing is
   * free (returned as 0), or goes round the FAT for ever.
   */
  datatype Search = Found(start: nat) | NothingFree | Endless

  /**
   * find_contiguous_clusters.  The original repeats its search for ever once it
   * has gone past the last free cluster and starts again from the front; the
   * model reports Endless at that point (see EndlessExactly).
   */
  method FindContiguousClusters(d: Disk, totalClusters: nat) returns (r: Search)
    requires d.Valid() && 2 <= |d.fat| && d.fat[0] != 0 && totalClusters > 0
    ensures r.Found? ==> RunAt(d.fat, r.start, totalClusters) && forall s :: 0 <= s < r.start ==> !RunAt(d.fat, s, totalClusters)
    ensures r.NothingFree? ==> NoneFree(d.fat)
    ensures r.Endless? ==> !NoneFree(d.fat) && !SomeRun(d.fat, totalClusters)
  {
    var startCluster := 0;
    while true
      invariant startCluster <= |d.fat|
      invariant forall s :: 0 <= s < startCluster ==> !RunAt(d.fat, s, totalClusters)
      decreases |d.fat| - startCluster
    {
      var s := FindFreeCluster(d, startCluster);
      if s == 0 {
        return NothingFree;
      }
      if s < startCluster {
        NoRunFrom(d.fat, startCluster, totalClusters);
        return Endless;
      }
      var cnt := CountFree(d, s, totalClusters);
      NoRunBefore(d.fat, startCluster, s, cnt, totalClusters);
      if cnt == totalClusters {
        return Found(s);
      }
      startCluster := s + cnt;
    }
  }

  lemma RunStartsFree(fat: Fat, s: nat, n: nat)
    requires n > 0
    ensures RunAt(fat, s, n) ==> FreeAt(fat, s)
  {
  }

  lemma NoRunFrom(fat: Fat, from: nat, n: nat)
    requires n > 0 && AllUsed(fat, from, |fat|)
    requires forall s :: 0 <= s < from ==> !RunAt(fat, s, n)
    ensures !SomeRun(fat, n)
  {
    forall s | from <= s ensures !RunAt(fat, s, n) {
      RunStartsFree(fat, s, n);
    }
  }

  /** The inner loop of find_contiguous_clusters: how far the run from s goes, at most n clusters. */
  method CountFree(d: Disk, s: nat, n: nat) returns (cnt: nat)
    requires d.Valid() && d.fat[0] != 0 && RunAt(d.fat, s, 1) && n > 0
    ensures 1 <= cnt <= n && RunAt(d.fat, s, cnt)
    ensures cnt < n ==> s + cnt == |d.fat| || d.fat[s + cnt] != 0
  {
    cnt := 1;
    while cnt < n
      invariant 1 <= cnt <= n && RunAt(d.fat, s, cnt)
    {
      var free := d.IsFreeCluster(s + cnt);
      if !free {
        break;
      }
      cnt := cnt + 1;
    }
  }

  /** A probe that stops short at s + cnt rules out every start up to there. */
  lemma NoRunBefore(fat: Fat, from: nat, s: nat, cnt: nat, n: nat)
    requires from <= s && 1 <= cnt <= n && RunAt(fat, s, cnt)
    requires forall c :: from <= c < s && 2 <= c ==> fat[c] != 0
    requires forall t :: 0 <= t < from ==> !RunAt(fat, t, n)
    ensures forall t :: 0 <= t < s ==> !RunAt(fat, t, n)
    ensures cnt < n && (s + cnt == |fat| || fat[s + cnt] != 0) ==> forall t :: 0 <= t < s + cnt ==> !RunAt(fat, t, n)
  {
    forall t | 0 <= t < s ensures !RunAt(fat, t, n) {
      RunStartsFree(fat, t, n);
    }
    if cnt < n && (s + cnt == |fat| || fat[s + cnt] != 0) {
      forall t | s <= t < s + cnt ensures !RunAt(fat, t, n) {
        assert RunAt(fat, t, n) && s + cnt < |fat| ==> t <= s + cnt < t + n;
      }
    }
  }
}
