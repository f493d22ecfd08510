/** What a direct write does to the bytes and the chain of its file. */
module Splicing {
  import opened Bytes
  import opened Chains
  import opened Volume
  import opened Contents
  import opened Arith

  /**
   * The file on cl and ch is the one on cl0 and ch0 with data put at byte position
   * at; ch begins with ch0.
   */
  ghost predicate Spliced(cl0: Clusters, ch0: seq<nat>, cl: Clusters, ch: seq<nat>, spc: nat, at: nat, data: seq<byte>) {
    && Holds(cl0, ch0, spc) && Holds(cl, ch, spc) && ch0 <= ch && Times(|ch0|, spc) <= Times(|ch|, spc)
    && (data == [] || at + |data| <= Times(|ch|, spc) * 512)
    && (forall p {:trigger ByteAt(cl, ch, spc, p)} :: at <= p < at + |data| ==> ByteAt(cl, ch, spc, p) == data[p - at])
    && (forall p {:trigger ByteAt(cl, ch, spc, p)} :: 0 <= p < Times(|ch0|, spc) * 512 && !(at <= p < at + |data|) ==>
          ByteAt(cl, ch, spc, p) == ByteAt(cl0, ch0, spc, p))
  }

  /** buf with data at offset o. */
  function Patched(sector: Sector, o: nat, data: seq<byte>): (r: Sector)
    requires o + |data| <= 512
    ensures forall i :: 0 <= i < 512 ==> r[i] == if o <= i < o + |data| then data[i - o] else sector[i]
  {
    sector[..o] + data + sector[o + |data|..]
  }

  lemma SplicedFirst(cl: Clusters, ch: seq<nat>, spc: nat, at: nat)
    requires Holds(cl, ch, spc)
    ensures Spliced(cl, ch, cl, ch, spc, at, [])
  {
  }

  /** A piece put into sector s of cluster j changes the bytes of the file from e on, e being in that sector. */
  lemma PieceStored(cl: Clusters, ch: seq<nat>, spc: nat, j: nat, s: nat, e: nat, piece: seq<byte>)
    requires Holds(cl, ch, spc) && Distinct(ch) && j < |ch| && s < spc
    requires e / 512 == Times(j, spc) + s && e % 512 + |piece| <= 512
    ensures e + |piece| <= Times(|ch|, spc) * 512
    ensures var cl' := Stored(cl, ch[j], s, Patched(cl[ch[j]][s], e % 512, piece));
            && Holds(cl', ch, spc)
            && forall p {:trigger ByteAt(cl', ch, spc, p)} :: 0 <= p < Times(|ch|, spc) * 512 ==>
                 ByteAt(cl', ch, spc, p) == if e <= p < e + |piece| then piece[p - e] else ByteAt(cl, ch, spc, p)
  {
    var k := Times(j, spc) + s;
    var sector := Patched(cl[ch[j]][s], e % 512, piece);
    var cl' := Stored(cl, ch[j], s, sector);
    SamePlace(k, j, s, spc);
    SectorStored(cl, ch, spc, j, s, sector);
    TimesMono(j, |ch|, spc);
    forall p | 0 <= p < Times(|ch|, spc) * 512
      ensures ByteAt(cl', ch, spc, p) == if e <= p < e + |piece| then piece[p - e] else ByteAt(cl, ch, spc, p)
    {
      PatchedByte(cl[ch[j]][s], e, piece, p);
      assert SectorAt(cl', ch, spc, p / 512) == if p / 512 == k then sector else SectorAt(cl, ch, spc, p / 512);
    }
  }

  /** One more piece goes into the sector that follows the data written so far. */
  lemma SplicedNext(cl0: Clusters, ch0: seq<nat>, cl: Clusters, ch: seq<nat>, spc: nat, at: nat, data: seq<byte>,
                    j: nat, s: nat, piece: seq<byte>)
    requires Spliced(cl0, ch0, cl, ch, spc, at, data) && Distinct(ch) && j < |ch| && s < spc
    requires (at + |data|) / 512 == Times(j, spc) + s && (at + |data|) % 512 + |piece| <= 512
    ensures var sector := Patched(cl[ch[j]][s], (at + |data|) % 512, piece);
            Spliced(cl0, ch0, Stored(cl, ch[j], s, sector), ch, spc, at, data + piece)
  {
    hide Quot, Rem, Times, ByteAt, Patched, Stored;
    PieceStored(cl, ch, spc, j, s, at + |data|, piece);
  }

  lemma PatchedByte(sector: Sector, e: nat, piece: seq<byte>, p: nat)
    requires e % 512 + |piece| <= 512
    ensures p / 512 == e / 512 ==>
              Patched(sector, e % 512, piece)[p % 512] == if e <= p < e + |piece| then piece[p - e] else sector[p % 512]
    ensures p / 512 != e / 512 ==> !(e <= p < e + |piece|)
  {
    if e <= p < e + |piece| {
      InSector(e, p - e);
    }
  }

  /** A longer chain holds the same file. */
  lemma SplicedLonger(cl0: Clusters, ch0: seq<nat>, cl: Clusters, ch: seq<nat>, spc: nat, at: nat, data: seq<byte>, ch': seq<nat>)
    requires Spliced(cl0, ch0, cl, ch, spc, at, data) && ch <= ch' && Holds(cl, ch', spc)
    ensures Spliced(cl0, ch0, cl, ch', spc, at, data)
  {
    SectorsPrefix(cl, ch, ch', spc);
    forall p | 0 <= p < Times(|ch|, spc) * 512 ensures ByteAt(cl, ch', spc, p) == ByteAt(cl, ch, spc, p) {
      assert SectorAt(cl, ch', spc, p / 512) == SectorAt(cl, ch, spc, p / 512);
    }
  }

  /** The file does not depend on clusters outside its chain. */
  lemma SplicedFrame(cl0: Clusters, ch0: seq<nat>, cl: Clusters, ch: seq<nat>, spc: nat, at: nat, data: seq<byte>, cl': Clusters)
    requires Spliced(cl0, ch0, cl, ch, spc, at, data) && |cl'| == |cl|
    requires forall c :: c in ch && c < |cl| ==> cl'[c] == cl[c]
    ensures Spliced(cl0, ch0, cl', ch, spc, at, data)
  {
    SectorsFrame(cl, cl', ch, spc);
    forall p | 0 <= p < Times(|ch|, spc) * 512 ensures ByteAt(cl', ch, spc, p) == ByteAt(cl, ch, spc, p) {
      assert SectorAt(cl', ch, spc, p / 512) == SectorAt(cl, ch, spc, p / 512);
    }
  }

  /** A write at or before the end of the file splices its content. */
  lemma SplicedContent(cl0: Clusters, ch0: seq<nat>, cl: Clusters, ch: seq<nat>, spc: nat, at: nat, data: seq<byte>, size: nat)
    requires Spliced(cl0, ch0, cl, ch, spc, at, data) && at <= size <= Times(|ch0|, spc) * 512
    ensures Holds(cl, ch, spc) && ch0 <= ch
    ensures var size' := if at + |data| > size then at + |data| else size;
            && size' <= Times(|ch|, spc) * 512
            && Content(cl, ch, spc, size') == Splice(Content(cl0, ch0, spc, size), at, data)
  {
    var size' := if at + |data| > size then at + |data| else size;
    var r := Splice(Content(cl0, ch0, spc, size), at, data);
    forall p | 0 <= p < size' ensures Content(cl, ch, spc, size')[p] == r[p] {
      assert Content(cl, ch, spc, size')[p] == ByteAt(cl, ch, spc, p);
    }
  }

  /** old[..at] + data + what data does not cover of old. */
  function Splice(old_: seq<byte>, at: nat, data: seq<byte>): seq<byte>
    requires at <= |old_|
  {
    old_[..at] + data + (if at + |data| <= |old_| then old_[at + |data|..] else [])
  }

  // ----- the chain

  /** ch is ch0 followed by clusters that were free, and no other entry differs. */
  ghost predicate Grown(fat0: Fat, ch0: seq<nat>, fat: Fat, ch: seq<nat>) {
    && |fat| == |fat0| && ch0 <= ch
    && (forall j :: |ch0| <= j < |ch| ==> ch[j] < |fat0| && fat0[ch[j]] == 0)
    && (forall c :: 0 <= c < |fat| && c !in ch ==> fat[c] == fat0[c])
  }

  lemma GrownBy(fat0: Fat, ch0: seq<nat>, fat: Fat, ch: seq<nat>, start: nat, n: nat)
    requires Grown(fat0, ch0, fat, ch) && |ch| > 0 && n > 0 && RunAt(fat, start, n)
    requires forall c :: c in ch ==> c < |fat| && fat[c] != 0
    ensures ch[|ch| - 1] < |fat| && Grown(fat0, ch0, LinkRun(fat, start, n)[ch[|ch| - 1] := start], ch + Run(start, n))
  {
    var ch' := ch + Run(start, n);
    assert ch[|ch| - 1] in ch;
    forall j | |ch0| <= j < |ch'| ensures ch'[j] < |fat0| && fat0[ch'[j]] == 0 {
      if j >= |ch| {
        assert fat[ch'[j]] == 0;
        assert ch'[j] !in ch;
      }
    }
    assert forall c :: c in ch' <==> c in ch || c in Run(start, n);
  }
}
