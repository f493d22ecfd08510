/**
 * The FAT as a sequence of entries, cluster chains in it, and what the
 * allocation, extension, cutting and release of chains do to a well-formed
 * volume.  Everything here is a value; the classes of the other modules are
 * proved against these closed forms.
 */
module Chains {

  type Fat = seq<nat>

  /** FAT32_MIN_END_OF_CLUSTER_MARKER; also the marker written by allocate_cluster. */
  const END_MARK: nat := 0x0fff_fff8

  /** ch is the chain that starts at ch[0]: in range, linked, and ended by a marker. */
  ghost predicate IsChain(fat: Fat, ch: seq<nat>) {
    && |ch| > 0
    && (forall i :: 0 <= i < |ch| ==> 2 <= ch[i] < |fat|)
    && (forall i {:trigger fat[ch[i]]} :: 0 <= i < |ch| - 1 ==> fat[ch[i]] == ch[i + 1])
    && fat[ch[|ch| - 1]] >= END_MARK
  }

  ghost predicate Distinct(ch: seq<nat>) {
    forall i, j :: 0 <= i < j < |ch| ==> ch[i] != ch[j]
  }

  /**
   * The invariant of a volume.  chains maps each owner (a file or directory) to
   * its cluster chain.
   */
  ghost predicate WellFormed(fat: Fat, chains: map<int, seq<nat>>) {
    && 2 <= |fat| <= END_MARK
    && fat[0] != 0
    && (forall c :: 0 <= c < |fat| ==> fat[c] < 0x1000_0000)
    && AllChains(fat, chains)
    && Disjoint(chains)
    && Covered(fat, chains)
  }

  ghost predicate AllChains(fat: Fat, chains: map<int, seq<nat>>) {
    forall id :: id in chains ==> IsChain(fat, chains[id])
  }

  ghost predicate Disjoint(chains: map<int, seq<nat>>) {
    forall a, b, c :: a in chains && b in chains && c in chains[a] && c in chains[b] ==> a == b
  }

  /** Every used cluster lies on some chain. */
  ghost predicate Covered(fat: Fat, chains: map<int, seq<nat>>) {
    forall c {:trigger Owned(chains, c)} :: 2 <= c < |fat| && fat[c] != 0 ==> Owned(chains, c)
  }

  ghost predicate Owned(chains: map<int, seq<nat>>, c: nat) {
    exists id :: id in chains && c in chains[id]
  }

  /** n free clusters in a row, starting at s. */
  predicate RunAt(fat: Fat, s: nat, n: nat) {
    2 <= s && s + n <= |fat| && forall c :: s <= c < s + n ==> fat[c] == 0
  }

  function Run(s: nat, n: nat): (r: seq<nat>)
    ensures |r| == n
    ensures forall i :: 0 <= i < n ==> r[i] == s + i
    ensures forall c :: c in r <==> s <= c < s + n
  {
    var r := seq(n, i requires 0 <= i < n => s + i);
    RunMembers(s, n, r);
    r
  }

  lemma RunMembers(s: nat, n: nat, r: seq<nat>)
    requires |r| == n && forall i :: 0 <= i < n ==> r[i] == s + i
    ensures forall c :: c in r <==> s <= c < s + n
  {
    forall c | s <= c < s + n ensures c in r {
      assert r[c - s] == c;
    }
  }

  /** The n clusters from s chained one after the other and ended. */
  function LinkRun(fat: Fat, s: nat, n: nat): (f: Fat)
    requires s + n <= |fat|
    ensures |f| == |fat|
    ensures forall c :: 0 <= c < |fat| ==>
              f[c] == if s <= c < s + n then (if c == s + n - 1 then END_MARK else c + 1) else fat[c]
  {
    seq(|fat|, c requires 0 <= c < |fat| =>
      if s <= c < s + n then (if c == s + n - 1 then END_MARK else c + 1) else fat[c])
  }

  /** Every listed cluster made free. */
  function Freed(fat: Fat, cells: seq<nat>): (f: Fat)
    ensures |f| == |fat|
    ensures forall c :: 0 <= c < |fat| ==> f[c] == if c in cells then 0 else fat[c]
  {
    seq(|fat|, c requires 0 <= c < |fat| => if c in cells then 0 else fat[c])
  }

  /** A chain cannot pass the same cluster twice, because it ends. */
  lemma ChainIsDistinct(fat: Fat, ch: seq<nat>)
    requires |fat| <= END_MARK && IsChain(fat, ch)
    ensures Distinct(ch)
  {
    forall i, j | 0 <= i < j < |ch| ensures ch[i] != ch[j] {
      var k := i + (|ch| - 1 - j);
      assert fat[ch[k]] == ch[k + 1];
      if ch[i] == ch[j] {
        SameSuffix(fat, ch, i, j, |ch| - 1 - j);
      }
    }
  }

  lemma {:induction false} SameSuffix(fat: Fat, ch: seq<nat>, i: nat, j: nat, t: nat)
    requires IsChain(fat, ch) && i < j && j + t < |ch| && ch[i] == ch[j]
    ensures ch[i + t] == ch[j + t]
  {
    if t > 0 {
      SameSuffix(fat, ch, i, j, t - 1);
      assert fat[ch[i + t - 1]] == ch[i + t];
      assert fat[ch[j + t - 1]] == ch[j + t];
    }
  }

  /** The chain of a first cluster is determined by the FAT. */
  lemma ChainIsUnique(fat: Fat, a: seq<nat>, b: seq<nat>)
    requires |fat| <= END_MARK && IsChain(fat, a) && IsChain(fat, b) && a[0] == b[0]
    ensures a == b
  {
    var m := if |a| <= |b| then |a| else |b|;
    assert |b| > m ==> fat[b[m - 1]] == b[m];
    assert |a| > m ==> fat[a[m - 1]] == a[m];
    SamePrefix(fat, a, b, m);
    assert a[m - 1] == a[..m][m - 1] == b[..m][m - 1] == b[m - 1];
    assert a == a[..m] && b == b[..m];
  }

  lemma {:induction false} SamePrefix(fat: Fat, a: seq<nat>, b: seq<nat>, m: nat)
    requires IsChain(fat, a) && IsChain(fat, b) && a[0] == b[0] && m <= |a| && m <= |b|
    ensures a[..m] == b[..m]
  {
    if m > 1 {
      SamePrefix(fat, a, b, m - 1);
      assert a[m - 2] == a[..m - 1][m - 2] == b[..m - 1][m - 2] == b[m - 2];
      assert fat[a[m - 2]] == a[m - 1] && fat[b[m - 2]] == b[m - 1];
    }
  }

  /** A chain whose clusters keep their entries stays a chain. */
  lemma ChainFrame(fat: Fat, fat': Fat, ch: seq<nat>)
    requires IsChain(fat, ch) && |fat'| == |fat|
    requires forall c :: c in ch ==> fat'[c] == fat[c]
    ensures IsChain(fat', ch)
  {
    forall i | 0 <= i < |ch| ensures fat'[ch[i]] == fat[ch[i]] {
      assert ch[i] in ch;
    }
  }

  /** Every cluster of a chain is in range and used. */
  lemma OwnedIsUsed(fat: Fat, ch: seq<nat>, c: nat)
    requires IsChain(fat, ch) && c in ch
    ensures 2 <= c < |fat| && fat[c] != 0
  {
    var i :| 0 <= i < |ch| && ch[i] == c;
    assert i < |ch| - 1 ==> fat[ch[i]] == ch[i + 1];
  }

  /** No chain passes a free cluster. */
  lemma FreeIsUnowned(fat: Fat, chains: map<int, seq<nat>>, c: nat)
    requires WellFormed(fat, chains) && c < |fat| && fat[c] == 0
    ensures forall id :: id in chains ==> c !in chains[id]
  {
    forall id | id in chains ensures c !in chains[id] {
      if c in chains[id] {
        OwnedIsUsed(fat, chains[id], c);
      }
    }
  }

  // ----- what the operations of the file layer do to a well-formed volume

  /** chains and chains' agree on every owner but id, and fat' keeps the entries of their clusters. */
  ghost predicate OthersKept(fat: Fat, chains: map<int, seq<nat>>, fat': Fat, chains': map<int, seq<nat>>, id: int) {
    && |fat'| == |fat|
    && (forall o :: o != id ==> (o in chains' <==> o in chains))
    && (forall o :: o != id && o in chains ==> chains'[o] == chains[o])
    && (forall o, c :: o != id && o in chains && c in chains[o] ==> 2 <= c < |fat| && fat'[c] == fat[c])
  }

  lemma AllChainsRebuilt(fat: Fat, chains: map<int, seq<nat>>, fat': Fat, chains': map<int, seq<nat>>, id: int)
    requires AllChains(fat, chains) && OthersKept(fat, chains, fat', chains', id)
    requires id in chains' ==> IsChain(fat', chains'[id])
    ensures AllChains(fat', chains')
  {
    forall o | o in chains' ensures IsChain(fat', chains'[o]) {
      if o != id {
        ChainFrame(fat, fat', chains[o]);
      }
    }
  }

  lemma DisjointRebuilt(fat: Fat, chains: map<int, seq<nat>>, fat': Fat, chains': map<int, seq<nat>>, id: int)
    requires Disjoint(chains) && OthersKept(fat, chains, fat', chains', id)
    requires id in chains' ==> forall o, c :: o != id && o in chains && c in chains[o] ==> c !in chains'[id]
    ensures Disjoint(chains')
  {
  }

  lemma CoveredRebuilt(fat: Fat, chains: map<int, seq<nat>>, fat': Fat, chains': map<int, seq<nat>>, id: int)
    requires Covered(fat, chains) && OthersKept(fat, chains, fat', chains', id)
    requires forall c :: 2 <= c < |fat| && fat'[c] != 0 && (fat[c] == 0 || (id in chains && c in chains[id])) ==>
                           id in chains' && c in chains'[id]
    ensures Covered(fat', chains')
  {
    forall c | 2 <= c < |fat'| && fat'[c] != 0 ensures Owned(chains', c) {
      if fat[c] != 0 {
        assert Owned(chains, c);
        var o :| o in chains && c in chains[o];
        assert o in chains' && c in chains'[o];
      }
    }
  }

  /** A volume stays well formed when only owner id and its clusters change. */
  lemma Rebuilt(fat: Fat, chains: map<int, seq<nat>>, fat': Fat, chains': map<int, seq<nat>>, id: int)
    requires WellFormed(fat, chains) && OthersKept(fat, chains, fat', chains', id) && fat'[0] != 0
    requires forall c :: 0 <= c < |fat'| ==> fat'[c] < 0x1000_0000
    requires id in chains' ==> IsChain(fat', chains'[id])
    requires id in chains' ==> forall o, c :: o != id && o in chains && c in chains[o] ==> c !in chains'[id]
    requires forall c :: 2 <= c < |fat| && fat'[c] != 0 && (fat[c] == 0 || (id in chains && c in chains[id])) ==>
                           id in chains' && c in chains'[id]
    ensures WellFormed(fat', chains')
  {
    AllChainsRebuilt(fat, chains, fat', chains', id);
    DisjointRebuilt(fat, chains, fat', chains', id);
    CoveredRebuilt(fat, chains, fat', chains', id);
  }

  /** The clusters of other owners are used, in range and not in a free run. */
  lemma Others(fat: Fat, chains: map<int, seq<nat>>, s: nat, n: nat)
    requires WellFormed(fat, chains) && RunAt(fat, s, n)
    ensures forall o, c :: o in chains && c in chains[o] ==> 2 <= c < |fat| && fat[c] != 0 && c !in Run(s, n)
  {
    forall o, c | o in chains && c in chains[o] ensures 2 <= c < |fat| && fat[c] != 0 {
      OwnedIsUsed(fat, chains[o], c);
    }
  }

  /** A new owner receives a free run. */
  lemma NewBlock(fat: Fat, chains: map<int, seq<nat>>, id: int, s: nat, n: nat)
    requires WellFormed(fat, chains) && id !in chains && n > 0 && RunAt(fat, s, n)
    ensures WellFormed(LinkRun(fat, s, n), chains[id := Run(s, n)])
  {
    Others(fat, chains, s, n);
    RunIsChain(fat, s, n);
    Rebuilt(fat, chains, LinkRun(fat, s, n), chains[id := Run(s, n)], id);
  }

  lemma RunIsChain(fat: Fat, s: nat, n: nat)
    requires n > 0 && 2 <= s && s + n <= |fat| <= END_MARK
    ensures IsChain(LinkRun(fat, s, n), Run(s, n))
  {
  }

  /** The end of a chain is linked to a free run. */
  lemma Extended(fat: Fat, chains: map<int, seq<nat>>, id: int, s: nat, n: nat)
    requires WellFormed(fat, chains) && id in chains && n > 0 && RunAt(fat, s, n)
    ensures var ch := chains[id];
            WellFormed(LinkRun(fat, s, n)[ch[|ch| - 1] := s], chains[id := ch + Run(s, n)])
  {
    var ch := chains[id];
    var fat' := LinkRun(fat, s, n)[ch[|ch| - 1] := s];
    Others(fat, chains, s, n);
    assert ch[|ch| - 1] in ch;
    Joined(fat, ch, s, n);
    assert forall c :: c in ch + Run(s, n) <==> c in ch || c in Run(s, n);
    Rebuilt(fat, chains, fat', chains[id := ch + Run(s, n)], id);
  }

  lemma Joined(fat: Fat, ch: seq<nat>, s: nat, n: nat)
    requires |fat| <= END_MARK && IsChain(fat, ch) && n > 0 && RunAt(fat, s, n)
    requires forall c :: c in ch ==> fat[c] != 0
    ensures IsChain(LinkRun(fat, s, n)[ch[|ch| - 1] := s], ch + Run(s, n))
  {
    var fat' := LinkRun(fat, s, n)[ch[|ch| - 1] := s];
    var ch' := ch + Run(s, n);
    ChainIsDistinct(fat, ch);
    forall i | 0 <= i < |ch'| - 1 ensures fat'[ch'[i]] == ch'[i + 1] {
      if i < |ch| - 1 {
        assert ch[i] in ch && fat[ch[i]] == ch[i + 1];
      } else if i >= |ch| {
        assert ch[|ch| - 1] in ch;
      }
    }
    assert ch[|ch| - 1] in ch;
  }

  /** A chain is cut after its first k clusters and the rest is freed. */
  lemma Cut(fat: Fat, chains: map<int, seq<nat>>, id: int, k: nat)
    requires WellFormed(fat, chains) && id in chains && 0 < k <= |chains[id]|
    ensures var ch := chains[id];
            WellFormed(Freed(fat, ch[k..])[ch[k - 1] := END_MARK], chains[id := ch[..k]])
  {
    var ch := chains[id];
    var fat' := Freed(fat, ch[k..])[ch[k - 1] := END_MARK];
    Shortened(fat, ch, k);
    assert ch == ch[..k] + ch[k..];
    assert forall c :: c in ch <==> c in ch[..k] || c in ch[k..];
    forall o, c | o in chains && c in chains[o] ensures 2 <= c < |fat| && fat[c] != 0 {
      OwnedIsUsed(fat, chains[o], c);
    }
    assert ch[k - 1] in ch;
    assert ch[k - 1] == ch[..k][k - 1];
    Rebuilt(fat, chains, fat', chains[id := ch[..k]], id);
  }

  lemma Shortened(fat: Fat, ch: seq<nat>, k: nat)
    requires |fat| <= END_MARK && IsChain(fat, ch) && 0 < k <= |ch|
    ensures IsChain(Freed(fat, ch[k..])[ch[k - 1] := END_MARK], ch[..k])
  {
    var fat' := Freed(fat, ch[k..])[ch[k - 1] := END_MARK];
    ChainIsDistinct(fat, ch);
    forall i | 0 <= i < k ensures ch[i] !in ch[k..] {
      assert forall j :: 0 <= j < |ch[k..]| ==> ch[k..][j] == ch[k + j];
    }
    forall i | 0 <= i < k - 1 ensures fat'[ch[i]] == ch[i + 1] {
      assert fat[ch[i]] == ch[i + 1];
    }
  }

  /** A whole chain is freed and its owner has none any more. */
  lemma Released(fat: Fat, chains: map<int, seq<nat>>, id: int)
    requires WellFormed(fat, chains) && id in chains
    ensures WellFormed(Freed(fat, chains[id]), chains - {id})
  {
    forall o, c | o in chains && c in chains[o] ensures 2 <= c < |fat| && fat[c] != 0 {
      OwnedIsUsed(fat, chains[o], c);
    }
    Rebuilt(fat, chains, Freed(fat, chains[id]), chains - {id}, id);
  }

  /** A chain gives way to a new block: the block is linked first, then the chain is freed. */
  lemma Replaced(fat: Fat, chains: map<int, seq<nat>>, id: int, s: nat, n: nat)
    requires WellFormed(fat, chains) && id in chains && n > 0 && RunAt(fat, s, n)
    ensures WellFormed(Freed(LinkRun(fat, s, n), chains[id]), chains[id := Run(s, n)])
  {
    var mid := LinkRun(fat, s, n);
    var fat' := Freed(mid, chains[id]);
    Others(fat, chains, s, n);
    RunIsChain(fat, s, n);
    assert forall c :: c in Run(s, n) ==> c !in chains[id];
    ChainFrame(mid, fat', Run(s, n));
    Rebuilt(fat, chains, fat', chains[id := Run(s, n)], id);
  }

  // ----- free clusters

  function FreeSet(fat: Fat): set<nat> {
    set c: nat | 2 <= c < |fat| && fat[c] == 0
  }

  function FreeCount(fat: Fat): nat {
    |FreeSet(fat)|
  }

  function Members(ch: seq<nat>): set<nat> {
    set c | c in ch
  }

  lemma {:induction false} MembersCount(ch: seq<nat>)
    requires Distinct(ch)
    ensures |Members(ch)| == |ch|
  {
    if ch == [] {
      assert Members(ch) == {};
    } else {
      var n := |ch| - 1;
      assert ch[n] !in ch[..n];
      MembersCount(ch[..n]);
      assert ch == ch[..n] + [ch[n]];
      assert Members(ch) == Members(ch[..n]) + {ch[n]};
    }
  }

  lemma LinkRunCount(fat: Fat, s: nat, n: nat)
    requires RunAt(fat, s, n)
    ensures FreeCount(LinkRun(fat, s, n)) == FreeCount(fat) - n
  {
    var taken := Members(Run(s, n));
    MembersCount(Run(s, n));
    assert FreeSet(LinkRun(fat, s, n)) == FreeSet(fat) - taken;
    assert FreeSet(fat) * taken == taken;
  }

  lemma FreedCount(fat: Fat, cells: seq<nat>)
    requires Distinct(cells)
    requires forall c :: c in cells ==> 2 <= c < |fat| && fat[c] != 0
    ensures FreeCount(Freed(fat, cells)) == FreeCount(fat) + |cells|
  {
    var given := Members(cells);
    MembersCount(cells);
    assert FreeSet(Freed(fat, cells)) == FreeSet(fat) + given;
    assert FreeSet(fat) * given == {};
  }

  /** Relinking a used cluster frees and takes nothing. */
  lemma RelinkCount(fat: Fat, c: nat, v: nat)
    requires c < |fat| && fat[c] != 0 && v != 0
    ensures FreeCount(fat[c := v]) == FreeCount(fat)
  {
    assert FreeSet(fat[c := v]) == FreeSet(fat);
  }
}
