/** A file's bytes as they lie on the clusters of its chain. */
module Contents {
  import opened Bytes
  import opened Chains
  import opened Volume
  import opened Arith

  type Clusters = seq<seq<Sector>>

  /** Every cluster of the chain exists and has spc sectors. */
  ghost predicate Holds(cl: Clusters, ch: seq<nat>, spc: nat) {
    spc > 0 && forall j :: 0 <= j < |ch| ==> ch[j] < |cl| && |cl[ch[j]]| == spc
  }

  /** Sector k of the file. */
  ghost function SectorAt(cl: Clusters, ch: seq<nat>, spc: nat, k: nat): Sector
    requires Holds(cl, ch, spc) && k < Times(|ch|, spc)
  {
    QuotBound(k, |ch|, spc);
    cl[ch[Quot(k, spc)]][Rem(k, spc)]
  }

  /** Byte i of the file. */
  ghost function ByteAt(cl: Clusters, ch: seq<nat>, spc: nat, i: nat): byte
    requires Holds(cl, ch, spc) && i / 512 < Times(|ch|, spc)
  {
    SectorAt(cl, ch, spc, i / 512)[i % 512]
  }

  /** Storing a sector in cluster j of the chain changes that sector of the file only. */
  lemma SectorStored(cl: Clusters, ch: seq<nat>, spc: nat, j: nat, s: nat, sector: Sector)
    requires Holds(cl, ch, spc) && Distinct(ch) && j < |ch| && s < spc
    ensures var cl' := Stored(cl, ch[j], s, sector);
            && Holds(cl', ch, spc)
            && forall k :: 0 <= k < Times(|ch|, spc) ==>
                 SectorAt(cl', ch, spc, k) == if k == Times(j, spc) + s then sector else SectorAt(cl, ch, spc, k)
  {
    var cl' := Stored(cl, ch[j], s, sector);
    forall k | 0 <= k < Times(|ch|, spc)
      ensures SectorAt(cl', ch, spc, k) == if k == Times(j, spc) + s then sector else SectorAt(cl, ch, spc, k)
    {
      QuotBound(k, |ch|, spc);
      SamePlace(k, j, s, spc);
    }
  }

  /** A file does not depend on the clusters outside its chain. */
  lemma SectorsFrame(cl: Clusters, cl': Clusters, ch: seq<nat>, spc: nat)
    requires Holds(cl, ch, spc) && |cl'| == |cl|
    requires forall c :: c in ch && c < |cl| ==> cl'[c] == cl[c]
    ensures Holds(cl', ch, spc)
    ensures forall k :: 0 <= k < Times(|ch|, spc) ==> SectorAt(cl', ch, spc, k) == SectorAt(cl, ch, spc, k)
  {
    forall k | 0 <= k < Times(|ch|, spc) ensures Holds(cl', ch, spc) && SectorAt(cl', ch, spc, k) == SectorAt(cl, ch, spc, k) {
      QuotBound(k, |ch|, spc);
      assert ch[Quot(k, spc)] in ch;
    }
  }

  /** A longer chain begins with the sectors of the shorter one. */
  lemma SectorsPrefix(cl: Clusters, ch: seq<nat>, ch': seq<nat>, spc: nat)
    requires Holds(cl, ch', spc) && ch <= ch'
    ensures Holds(cl, ch, spc) && Times(|ch|, spc) <= Times(|ch'|, spc)
    ensures forall k :: 0 <= k < Times(|ch|, spc) ==> SectorAt(cl, ch', spc, k) == SectorAt(cl, ch, spc, k)
  {
    assert forall j :: 0 <= j < |ch| ==> ch[j] == ch'[j];
    TimesMono(|ch|, |ch'|, spc);
    forall k | 0 <= k < Times(|ch|, spc) ensures SectorAt(cl, ch', spc, k) == SectorAt(cl, ch, spc, k) {
      QuotBound(k, |ch|, spc);
    }
  }

  /** The content of a file of the given size. */
  ghost function Content(cl: Clusters, ch: seq<nat>, spc: nat, size: nat): (r: seq<byte>)
    requires Holds(cl, ch, spc) && size <= Times(|ch|, spc) * 512
    ensures |r| == size && forall i :: 0 <= i < size ==> r[i] == ByteAt(cl, ch, spc, i)
  {
    seq(size, i requires 0 <= i < size => ByteAt(cl, ch, spc, i))
  }

  /** A byte string extended with zeros, or cut. */
  function Resized(s: seq<byte>, n: nat): (r: seq<byte>)
    ensures |r| == n && forall i :: 0 <= i < n ==> r[i] == if i < |s| then s[i] else 0
  {
    seq<byte>(n, i requires 0 <= i < n => if i < |s| then s[i] else 0)
  }

  /** The chain holds zeros at bytes from .. to of the file. */
  ghost predicate ZerosOnChain(cl: Clusters, ch: seq<nat>, spc: nat, from: nat, to: nat) {
    && Holds(cl, ch, spc) && to <= Times(|ch|, spc) * 512
    && forall i {:trigger ByteAt(cl, ch, spc, i)} :: from <= i < to ==> ByteAt(cl, ch, spc, i) == 0
  }

  /** Taking the first bytes of a chain for the file resizes it exactly when those past the old size are zero. */
  lemma ResizedOnChain(cl: Clusters, ch: seq<nat>, spc: nat, size: nat, length: nat)
    requires Holds(cl, ch, spc) && size <= Times(|ch|, spc) * 512 && length <= Times(|ch|, spc) * 512
    ensures Content(cl, ch, spc, length) == Resized(Content(cl, ch, spc, size), length) <==> ZerosOnChain(cl, ch, spc, size, length)
  {
    hide Times, ByteAt;
    var now, want := Content(cl, ch, spc, length), Resized(Content(cl, ch, spc, size), length);
    if now == want {
      forall i | size <= i < length ensures ByteAt(cl, ch, spc, i) == 0 {
        assert now[i] == want[i];
      }
    }
  }
}
