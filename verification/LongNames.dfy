/**
 * VFAT long names: 13 characters of a name go into each directory entry, numbered
 * from the end of the name, at the places the FAT32 specification gives them
 * ("FAT Long Directory Entries").
 */
module LongNames {
  import opened Bytes

  type Slot = s: seq<byte> | |s| == 32 witness seq(32, _ => 0)

  /** Room for a name in a directory record (FILENAME_MAX). */
  const NAME_ROOM: nat := 4096

  /** Place of character j of an entry: segments of 5, 6 and 2 at 0x01, 0x0E and 0x1C. */
  function CharOffset(j: nat): (o: nat)
    requires j < 13
    ensures o + 1 < 32
  {
    if j < 5 then 0x01 + 2 * j else if j < 11 then 0x0E + 2 * (j - 5) else 0x1C + 2 * (j - 11)
  }

  /** calculate_needed_direntries_for_vfat; C division rounds toward zero. */
  function NeededEntries(length: nat): (n: nat)
    ensures n >= 1
    ensures length >= 1 ==> 13 * (n - 1) < length <= 13 * n
  {
    if length == 0 then 1 else (length - 1) / 13 + 1
  }

  predicate ZeroFree(name: seq<byte>) {
    forall i :: 0 <= i < |name| ==> name[i] != 0
  }

  predicate LongName(name: seq<byte>) {
    1 <= |name| <= 255 && ZeroFree(name)
  }

  /** Character k of a name as it is stored: the name, one terminator, then fill. */
  function StoredChar(name: seq<byte>, k: nat): (c: (byte, byte))
    ensures c.0 + 0x100 * c.1 == if k < |name| then name[k] else if k == |name| then 0 else 0xffff
  {
    if k < |name| then (name[k], 0) else if k == |name| then (0, 0) else (0xff, 0xff)
  }

  /** The entry with number n of a name, byte for byte. */
  predicate IsEntry(e: Slot, name: seq<byte>, n: nat, checksum: byte) {
    && 1 <= n <= NeededEntries(|name|) < 0x20
    && e[0] == (if n == NeededEntries(|name|) then n + 0x40 else n)
    && e[0x0B] == 0x0F && e[0x0C] == 0 && e[0x0D] == checksum && e[0x1A] == 0 && e[0x1B] == 0
    && forall j :: 0 <= j < 13 ==> (e[CharOffset(j)], e[CharOffset(j) + 1]) == StoredChar(name, 13 * (n - 1) + j)
  }

  // ----- writing

  /**
   * copy_from_dnamechunk_to_offset: n characters of the zero-terminated text from
   * position at on; NULL is -1.  After the terminator the rest is filled.
   */
  method CopyFromChunk(text: seq<byte>, at: int, dir: array<byte>, offset: nat, n: nat)
    requires dir.Length == 32 && offset + 2 * n <= 32 && -1 <= at <= |text| && ZeroFree(text)
    modifies dir
    ensures forall i :: 0 <= i < 32 && !(offset <= i < offset + 2 * n) ==> dir[i] == old(dir[i])
    ensures forall j :: 0 <= j < n ==>
              (dir[offset + 2 * j], dir[offset + 2 * j + 1]) == if at == -1 then (0xff, 0xff) else StoredChar(text, at + j)
  {
    var chunk := at;
    var k := 0;
    while k < n
      invariant k <= n && chunk == (if at == -1 || at + k > |text| then -1 else at)
      invariant forall i :: 0 <= i < 32 && !(offset <= i < offset + 2 * k) ==> dir[i] == old(dir[i])
      invariant forall j :: 0 <= j < k ==>
                  (dir[offset + 2 * j], dir[offset + 2 * j + 1]) == if at == -1 then (0xff, 0xff) else StoredChar(text, at + j)
    {
      if chunk == -1 {
        dir[offset + 2 * k] := 0xff;
        dir[offset + 2 * k + 1] := 0xff;
      } else {
        var c: byte := if chunk + k == |text| then 0 else text[chunk + k];
        dir[offset + 2 * k] := c;
        dir[offset + 2 * k + 1] := 0;
        if c == 0 {
          chunk := -1;
        }
      }
      k := k + 1;
    }
  }

  /** copy_vfat_chars_into_direntry */
  method CopyIntoEntry(text: seq<byte>, dir: array<byte>, n: nat)
    requires dir.Length == 32 && 1 <= n && 13 * (n - 1) <= |text| && ZeroFree(text)
    modifies dir
    ensures dir[0] == old(dir[0])
    ensures forall i :: 0 <= i < 32 && (0x0B <= i < 0x0E || 0x1A <= i < 0x1C) ==> dir[i] == old(dir[i])
    ensures forall j :: 0 <= j < 13 ==> (dir[CharOffset(j)], dir[CharOffset(j) + 1]) == StoredChar(text, 13 * (n - 1) + j)
  {
    hide CharOffset;
    var from := 13 * (n - 1);
    var name: int := from;
    var length := |text| - from;
    CopyFromChunk(text, name, dir, 0x01, 5);
    length := length - 5;
    name := if length < 0 then -1 else name + 5;
    label first:
    assert forall j :: 0 <= j < 5 ==> (dir[0x01 + 2 * j], dir[0x01 + 2 * j + 1]) == StoredChar(text, from + j);
    CopyFromChunk(text, name, dir, 0x0E, 6);
    assert forall i :: 0 <= i < 0x0E ==> dir[i] == old@first(dir[i]);
    assert forall j :: 0 <= j < 6 ==> (dir[0x0E + 2 * j], dir[0x0E + 2 * j + 1]) == StoredChar(text, from + 5 + j);
    label second:
    length := length - 6;
    name := if length < 0 || name == -1 then -1 else name + 6;
    CopyFromChunk(text, name, dir, 0x1C, 2);
    assert forall i :: 0 <= i < 0x1C ==> dir[i] == old@second(dir[i]);
    ThreeSegments(dir[..], text, from);
  }

  lemma ThreeSegments(e: Slot, text: seq<byte>, from: nat)
    requires forall j :: 0 <= j < 5 ==> (e[0x01 + 2 * j], e[0x01 + 2 * j + 1]) == StoredChar(text, from + j)
    requires forall j :: 0 <= j < 6 ==> (e[0x0E + 2 * j], e[0x0E + 2 * j + 1]) == StoredChar(text, from + 5 + j)
    requires forall j :: 0 <= j < 2 ==> (e[0x1C + 2 * j], e[0x1C + 2 * j + 1]) == StoredChar(text, from + 11 + j)
    ensures forall j :: 0 <= j < 13 ==> (e[CharOffset(j)], e[CharOffset(j) + 1]) == StoredChar(text, from + j)
  {
    hide StoredChar;
    forall j | 0 <= j < 13 ensures (e[CharOffset(j)], e[CharOffset(j) + 1]) == StoredChar(text, from + j) {
      if 5 <= j < 11 {
        assert (e[0x0E + 2 * (j - 5)], e[0x0E + 2 * (j - 5) + 1]) == StoredChar(text, from + 5 + (j - 5));
      } else if 11 <= j {
        assert (e[0x1C + 2 * (j - 11)], e[0x1C + 2 * (j - 11) + 1]) == StoredChar(text, from + 11 + (j - 11));
      }
    }
  }

  /** write_vfat_direntry_chunk, up to the copy into the directory sector. */
  method BuildEntry(name: seq<byte>, n: nat, checksum: byte) returns (e: Slot)
    requires LongName(name) && 1 <= n <= NeededEntries(|name|)
    ensures IsEntry(e, name, n, checksum)
  {
    var dir := new byte[32](_ => 0);
    dir[0] := n;
    if n == NeededEntries(|name|) {
      // n is at most 20, so the bit is not yet set
      dir[0] := dir[0] + 0x40;
    }
    CopyIntoEntry(name, dir, n);
    dir[0x0B] := 0x0F;
    dir[0x0D] := checksum;
    e := dir[..];
  }

  // ----- reading

  /** The name of a C string: the bytes before the first zero. */
  function CString(buffer: seq<byte>): (s: seq<byte>)
    ensures |s| <= |buffer| && s == buffer[..|s|] && ZeroFree(s) && (|s| < |buffer| ==> buffer[|s|] == 0)
  {
    if buffer == [] || buffer[0] == 0 then [] else [buffer[0]] + CString(buffer[1..])
  }

  lemma {:induction false} CStringIs(buffer: seq<byte>, s: seq<byte>)
    requires |s| < |buffer| && s == buffer[..|s|] && ZeroFree(s) && buffer[|s|] == 0
    ensures CString(buffer) == s
  {
    if s != [] {
      assert buffer[0] == s[0] && buffer[1..][..|s| - 1] == s[1..];
      CStringIs(buffer[1..], s[1..]);
    }
  }

  /** The number in an entry's first byte. */
  function EntryNumber(e: Slot): (n: nat)
    ensures n < 0x20
  {
    e[0] % 0x20
  }

  /** The low bytes of an entry's characters, put at the entry's place in the name. */
  function StoreChars(buffer: seq<byte>, e: Slot): (b: seq<byte>)
    requires |buffer| == NAME_ROOM && EntryNumber(e) >= 1
    ensures |b| == |buffer|
    ensures forall k :: 0 <= k < NAME_ROOM ==>
              b[k] == var j := k - 13 * (EntryNumber(e) - 1); if 0 <= j < 13 then e[CharOffset(j)] else buffer[k]
  {
    var from := 13 * (EntryNumber(e) - 1);
    seq<byte>(NAME_ROOM, k requires 0 <= k < NAME_ROOM => if from <= k < from + 13 then e[CharOffset(k - from)] else buffer[k])
  }

  /** copy_to_dnamechunk_from_offset */
  method CopyToChunk(name: array<byte>, at: nat, e: Slot, offset: nat, n: nat)
    requires at + n <= name.Length && offset + 2 * n <= 32
    modifies name
    ensures forall k :: 0 <= k < name.Length ==> name[k] == if at <= k < at + n then e[offset + 2 * (k - at)] else old(name[k])
  {
    for k := 0 to n
      invariant forall i :: 0 <= i < name.Length ==> name[i] == if at <= i < at + k then e[offset + 2 * (i - at)] else old(name[i])
    {
      name[at + k] := e[offset + 2 * k];
    }
  }

  /** copy_vfat_chars_into_dname */
  method CopyOutOfEntry(name: array<byte>, e: Slot)
    requires name.Length == NAME_ROOM && EntryNumber(e) >= 1
    modifies name
    ensures name[..] == StoreChars(old(name[..]), e)
  {
    var at := 13 * (e[0] as int % 0x20 - 1);
    CopyToChunk(name, at, e, 0x01, 5);
    CopyToChunk(name, at + 5, e, 0x0E, 6);
    CopyToChunk(name, at + 11, e, 0x1C, 2);
  }

  // ----- the round trip

  /** The entries of a name in directory order: numbers n down to 1. */
  predicate AreEntries(es: seq<Slot>, name: seq<byte>, checksum: byte) {
    |es| == NeededEntries(|name|) && forall i :: 0 <= i < |es| ==> IsEntry(es[i], name, |es| - i, checksum)
  }

  /** Reading entries one after the other into a name buffer. */
  function ReadEntries(buffer: seq<byte>, es: seq<Slot>): (b: seq<byte>)
    requires |buffer| == NAME_ROOM && forall i :: 0 <= i < |es| ==> EntryNumber(es[i]) >= 1
    ensures |b| == NAME_ROOM
    decreases |es|
  {
    if es == [] then buffer else StoreChars(ReadEntries(buffer, es[..|es| - 1]), es[|es| - 1])
  }

  lemma EntryNumbers(e: Slot, name: seq<byte>, n: nat, checksum: byte)
    requires IsEntry(e, name, n, checksum)
    ensures EntryNumber(e) == n
  {
  }

  lemma EntryChar(e: Slot, name: seq<byte>, n: nat, checksum: byte, j: nat)
    requires IsEntry(e, name, n, checksum) && j < 13
    ensures e[CharOffset(j)] == StoredChar(name, 13 * (n - 1) + j).0
  {
    assert (e[CharOffset(j)], e[CharOffset(j) + 1]) == StoredChar(name, 13 * (n - 1) + j);
  }

  function EmptyName(): (b: seq<byte>)
    ensures |b| == NAME_ROOM && forall k :: 0 <= k < NAME_ROOM ==> b[k] == 0
  {
    seq<byte>(NAME_ROOM, _ => 0)
  }

  /** After the first i entries, the buffer holds the tail of the name from there on. */
  lemma {:induction false} PartRead(es: seq<Slot>, name: seq<byte>, checksum: byte, i: nat)
    requires LongName(name) && AreEntries(es, name, checksum) && i <= |es|
    ensures forall k :: 0 <= k < i ==> EntryNumber(es[k]) >= 1
    ensures forall k :: 0 <= k < NAME_ROOM ==>
              ReadEntries(EmptyName(), es[..i])[k] == if 13 * (|es| - i) <= k < 13 * |es| then StoredChar(name, k).0 else 0
  {
    hide IsEntry, CharOffset, StoredChar, EntryNumber, EmptyName;
    forall k | 0 <= k < i ensures EntryNumber(es[k]) == |es| - k {
      EntryNumbers(es[k], name, |es| - k, checksum);
    }
    if i > 0 {
      PartRead(es, name, checksum, i - 1);
      assert es[..i][..i - 1] == es[..i - 1];
      var e := es[i - 1];
      var from := 13 * (|es| - i);
      var before := ReadEntries(EmptyName(), es[..i - 1]);
      forall k | 0 <= k < NAME_ROOM
        ensures StoreChars(before, e)[k] == if from <= k < 13 * |es| then StoredChar(name, k).0 else 0
      {
        if from <= k < from + 13 {
          EntryChar(e, name, |es| - i + 1, checksum, k - from);
        }
      }
    }
  }

  /** Reading back what was written for a name gives the name, whatever its length from 1 to 255. */
  lemma NameRoundTrip(es: seq<Slot>, name: seq<byte>, checksum: byte)
    requires LongName(name) && AreEntries(es, name, checksum)
    ensures forall i :: 0 <= i < |es| ==> EntryNumber(es[i]) >= 1
    ensures CString(ReadEntries(EmptyName(), es)) == name
  {
    hide IsEntry, CharOffset, EntryNumber, EmptyName, ReadEntries, StoredChar, CString;
    PartRead(es, name, checksum, |es|);
    assert es[..|es|] == es;
    StoredName(ReadEntries(EmptyName(), es), name, 13 * |es|);
  }

  /** A buffer that holds the characters of a name, its terminator and some fill holds the name. */
  lemma StoredName(buffer: seq<byte>, name: seq<byte>, n: nat)
    requires LongName(name) && |buffer| == NAME_ROOM && |name| <= n
    requires forall k :: 0 <= k < NAME_ROOM ==> buffer[k] == if 0 <= k < n then StoredChar(name, k).0 else 0
    ensures CString(buffer) == name
  {
    hide CString;
    assert buffer[..|name|] == name;
    CStringIs(buffer, name);
  }

  /** The entries of a name are determined byte for byte. */
  lemma EntryIsUnique(e: Slot, f: Slot, name: seq<byte>, n: nat, checksum: byte)
    requires IsEntry(e, name, n, checksum) && IsEntry(f, name, n, checksum)
    ensures e == f
  {
    forall i | 0 <= i < 32 ensures e[i] == f[i] {
      if 0x01 <= i < 0x0B {
        var j := (i - 0x01) / 2;
        assert (e[CharOffset(j)], e[CharOffset(j) + 1]) == (f[CharOffset(j)], f[CharOffset(j) + 1]);
      } else if 0x0E <= i < 0x1A {
        var j := 5 + (i - 0x0E) / 2;
        assert (e[CharOffset(j)], e[CharOffset(j) + 1]) == (f[CharOffset(j)], f[CharOffset(j) + 1]);
      } else if 0x1C <= i {
        var j := 11 + (i - 0x1C) / 2;
        assert (e[CharOffset(j)], e[CharOffset(j) + 1]) == (f[CharOffset(j)], f[CharOffset(j) + 1]);
      }
    }
  }
}
