/** The loops of the file layer that link a new block and free a chain. */
module Linking {
  import opened Chains
  import opened Volume

  lemma LinkFirst(fat: Fat, s: nat)
    requires s < |fat|
    ensures LinkRun(fat, s, 1) == fat[s := END_MARK]
  {
  }

  lemma LinkNext(fat: Fat, s: nat, i: nat)
    requires 1 <= i && s + i < |fat|
    ensures LinkRun(fat, s, i)[s + i := END_MARK][s + i - 1 := s + i] == LinkRun(fat, s, i + 1)
  {
  }

  lemma LinkNextBehind(fat: Fat, s: nat, i: nat, tail: nat)
    requires 1 <= i && s + i < |fat| && tail < |fat| && !(s <= tail <= s + i)
    ensures LinkRun(fat, s, i)[tail := s][s + i := END_MARK][s + i - 1 := s + i] == LinkRun(fat, s, i + 1)[tail := s]
  {
  }

  /** allocate_cluster(cluster), then chain_cluster(before, cluster). */
  method AllocateAndChain(d: Disk, cluster: nat, before: nat)
    requires d.Valid() && d.fatFaults == 0 && cluster < |d.fat| && before < |d.fat|
    modifies d`sectors, d`fat, d`fatFaults
    ensures d.Valid() && d.fatFaults == 0
    ensures d.fat == old(d.fat)[cluster := END_MARK][before := cluster]
  {
    var e := d.AllocateCluster(cluster);
    e := d.ChainCluster(before, cluster);
  }

  /** Allocate and chain the n clusters from start; the callers ignore the error codes. */
  method LinkBlock(d: Disk, start: nat, n: nat)
    requires d.Valid() && d.fatFaults == 0 && n > 0 && start + n <= |d.fat|
    modifies d`sectors, d`fat, d`fatFaults
    ensures d.Valid() && d.fatFaults == 0 && d.fat == LinkRun(old(d.fat), start, n)
  {
    var e := d.AllocateCluster(start);
    LinkFirst(old(d.fat), start);
    for i := 1 to n
      invariant d.Valid() && d.fatFaults == 0 && d.fat == LinkRun(old(d.fat), start, i)
    {
      AllocateAndChain(d, start + i, start + i - 1);
      LinkNext(old(d.fat), start, i);
    }
  }

  /** The same block linked behind the last cluster of a chain, in the order of the direct write. */
  method LinkBehind(d: Disk, tail: nat, start: nat, n: nat)
    requires d.Valid() && d.fatFaults == 0 && n > 0 && start + n <= |d.fat|
    requires tail < |d.fat| && !(start <= tail < start + n)
    modifies d`sectors, d`fat, d`fatFaults
    ensures d.Valid() && d.fatFaults == 0 && d.fat == LinkRun(old(d.fat), start, n)[tail := start]
  {
    ghost var was: Fat := d.fat;
    AllocateAndChain(d, start, tail);
    LinkFirst(was, start);
    var i := 0;
    while i < n - 1
      invariant 0 <= i <= n - 1
      invariant d.Valid() && d.fatFaults == 0 && d.fat == LinkRun(was, start, i + 1)[tail := start]
    {
      var batchCluster := start + i;
      var nextCluster := batchCluster + 1;
      LinkNextBehind(was, start, i + 1, tail);
      AllocateAndChain(d, nextCluster, batchCluster);
      i := i + 1;
    }
  }

  /** The walk of count_cluster_chain. */
  method CountClusterChain(d: Disk, first: nat, ghost ch: seq<nat>) returns (count: nat, last: nat)
    requires d.Valid() && |d.fat| <= END_MARK && IsChain(d.fat, ch) && ch[0] == first
    ensures count == |ch| && last == ch[|ch| - 1]
  {
    count := 1;
    var cluster := first;
    while true
      invariant 1 <= count <= |ch| && cluster == ch[count - 1]
      decreases |ch| - count
    {
      var next := d.ChainedCluster(cluster);
      assert count < |ch| ==> d.fat[ch[count - 1]] == ch[count];
      if next == 0 || next >= END_MARK {
        break;
      }
      cluster := next;
      count := count + 1;
    }
    last := cluster;
  }

  /** The walk of a shrinking ftruncate to the cluster that becomes the last. */
  method WalkToLast(d: Disk, first: nat, needed: nat, ghost ch: seq<nat>) returns (cluster: nat)
    requires d.Valid() && |d.fat| <= END_MARK && IsChain(d.fat, ch) && ch[0] == first && 0 < needed <= |ch|
    ensures cluster == ch[needed - 1]
  {
    cluster := first;
    var i := 1;
    while i < needed
      invariant 1 <= i <= needed && cluster == ch[i - 1]
    {
      var next := d.ChainedCluster(cluster);
      assert d.fat[ch[i - 1]] == ch[i];
      if next == 0 || next >= END_MARK {
        break;
      }
      cluster := next;
      i := i + 1;
    }
  }

  /** fat' is fat with some of the listed clusters free. */
  ghost predicate FreedSome(fat: Fat, fat': Fat, ch: seq<nat>) {
    |fat'| == |fat| && forall c :: 0 <= c < |fat| ==> fat'[c] == fat[c] || (c in ch && fat'[c] == 0)
  }

  /**
   * Free a chain from its first cluster on, reading each link before its cluster
   * is freed.  The callers ignore the error codes.
   */
  method FreeChain(d: Disk, first: nat, ghost ch: seq<nat>)
    requires d.Valid() && |d.fat| <= END_MARK
    requires ch == [] ==> first >= END_MARK || first == 0
    requires ch != [] ==> IsChain(d.fat, ch) && ch[0] == first
    modifies d`sectors, d`fat, d`fatFaults
    ensures d.Valid() && d.fatFaults <= old(d.fatFaults) && FreedSome(old(d.fat), d.fat, ch)
    ensures old(d.fatFaults) == 0 ==> d.fat == Freed(old(d.fat), ch)
  {
    var cluster := first;
    ghost var i := 0;
    if ch != [] {
      ChainIsDistinct(d.fat, ch);
    }
    assert d.fat == Freed(old(d.fat), ch[..0]);
    while cluster > 0 && cluster < END_MARK
      invariant i <= |ch| && d.Valid() && d.fatFaults <= old(d.fatFaults)
      invariant FreedSome(old(d.fat), d.fat, ch[..i])
      invariant old(d.fatFaults) == 0 ==> d.fat == Freed(old(d.fat), ch[..i])
      invariant if i < |ch| then cluster == ch[i] else cluster == 0 || cluster >= END_MARK
      decreases |ch| - i
    {
      assert ch[i] !in ch[..i];
      var next := d.ChainedCluster(cluster);
      assert i < |ch| - 1 ==> old(d.fat)[ch[i]] == ch[i + 1];
      var e := d.DeallocateCluster(cluster);
      assert ch[..i + 1] == ch[..i] + [ch[i]];
      cluster := next;
      i := i + 1;
    }
    assert ch[..i] == ch;
  }
}
