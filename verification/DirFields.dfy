/** The first-cluster and size fields of a 32-byte directory entry inside its sector. */
module DirFields {
  import opened Bytes

  const DIR_ENTRY_CLUSTER_HI: nat := 0x14
  const DIR_ENTRY_CLUSTER_LO: nat := 0x1a
  const DIR_ENTRY_FILE_SIZE: nat := 0x1c

  /** The first cluster of the 32-byte entry at offset `entry`: get_first_cluster_of_file. */
  function EntryCluster(s: seq<byte>, entry: nat): (c: nat)
    requires entry + 32 <= |s|
    ensures c < 0x1_0000_0000
  {
    s[entry + DIR_ENTRY_CLUSTER_LO] as int + 0x100 * s[entry + DIR_ENTRY_CLUSTER_LO + 1] as int
    + 0x1_0000 * s[entry + DIR_ENTRY_CLUSTER_HI] as int + 0x100_0000 * s[entry + DIR_ENTRY_CLUSTER_HI + 1] as int
  }

  function EntrySize(s: Sector, entry: nat): nat
    requires entry + 32 <= 512
  {
    Le32(s, entry + DIR_ENTRY_FILE_SIZE)
  }

  /**
   * The fields lie where the FAT32 specification has them: the size in the last four
   * bytes of an entry, the low half of the first cluster before it, the high half at byte 20.
   */
  lemma EntryLayout(s: Sector, entry: nat)
    requires entry + 32 <= 512
    ensures EntrySize(s, entry) == LeValue(s[entry + 28..entry + 32])
    ensures EntryCluster(s, entry) == LeValue(s[entry + 26..entry + 28] + s[entry + 20..entry + 22])
  {
    FieldIsNumber(s, entry + 28);
    FieldIsNumber(s[entry + 26..entry + 28] + s[entry + 20..entry + 22], 0);
    var f := s[entry + 26..entry + 28] + s[entry + 20..entry + 22];
    assert f[0..4] == f;
  }

  /** t is s with other cluster and size fields in the entry; nothing else differs. */
  ghost predicate SameButFields(s: Sector, t: Sector, entry: nat)
    requires entry + 32 <= 512
  {
    forall i :: 0 <= i < 512
      && !(entry + DIR_ENTRY_CLUSTER_HI <= i < entry + DIR_ENTRY_CLUSTER_HI + 2)
      && !(entry + DIR_ENTRY_CLUSTER_LO <= i < entry + 32)
      ==> t[i] == s[i]
  }

  lemma Halves(v: nat)
    requires v < 0x1_0000_0000
    ensures var lo := v % 0x1_0000; var hi := v / 0x1_0000 % 0x1_0000;
            v == lo % 0x100 + 0x100 * (lo / 0x100 % 0x100) + 0x1_0000 * (hi % 0x100) + 0x100_0000 * (hi / 0x100 % 0x100)
  {
  }

  /** set_entry_first_cluster */
  function WithFirstCluster(s: Sector, entry: nat, cluster: nat): (t: Sector)
    requires entry + 32 <= 512 && cluster < 0x1_0000_0000
    ensures SameButFields(s, t, entry)
    ensures EntryCluster(t, entry) == cluster && EntrySize(t, entry) == EntrySize(s, entry)
  {
    Halves(cluster);
    PutLe16(PutLe16(s, entry + DIR_ENTRY_CLUSTER_LO, cluster % 0x1_0000),
            entry + DIR_ENTRY_CLUSTER_HI, cluster / 0x1_0000 % 0x1_0000)
  }

  /** set_entry_file_size */
  function WithFileSize(s: Sector, entry: nat, size: nat): (t: Sector)
    requires entry + 32 <= 512 && size < 0x1_0000_0000
    ensures SameButFields(s, t, entry)
    ensures EntrySize(t, entry) == size && EntryCluster(t, entry) == EntryCluster(s, entry)
  {
    PutThenGet(s, entry + DIR_ENTRY_FILE_SIZE, size);
    PutLe32(s, entry + DIR_ENTRY_FILE_SIZE, size)
  }
}
