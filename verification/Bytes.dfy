/** Bytes, 512-byte sectors and little-endian fields inside them. */
module Bytes {

  type byte = b: int | 0 <= b < 256

  const SECTOR_SIZE: nat := 512

  type Sector = s: seq<byte> | |s| == 512 witness seq(512, _ => 0)

  function ZeroSector(): (s: Sector)
    ensures forall i :: 0 <= i < 512 ==> s[i] == 0
  {
    seq(512, _ => 0)
  }

  /** The four bytes at offset o, least significant first. */
  function Le32(s: seq<byte>, o: nat): (v: nat)
    requires o + 4 <= |s|
    ensures v < 0x1_0000_0000
  {
    s[o] as int + 0x100 * s[o + 1] as int + 0x1_0000 * s[o + 2] as int + 0x100_0000 * s[o + 3] as int
  }

  /** value & 0xff, (value >> 8) & 0xff, ... written at offset o. */
  function PutLe16(s: seq<byte>, o: nat, v: nat): (t: seq<byte>)
    requires o + 2 <= |s|
    ensures |t| == |s|
    ensures forall i :: 0 <= i < |s| && !(o <= i < o + 2) ==> t[i] == s[i]
  {
    s[o := v % 0x100][o + 1 := v / 0x100 % 0x100]
  }

  function PutLe32(s: seq<byte>, o: nat, v: nat): (t: seq<byte>)
    requires o + 4 <= |s|
    ensures |t| == |s|
    ensures forall i :: 0 <= i < |s| && !(o <= i < o + 4) ==> t[i] == s[i]
  {
    s[o := v % 0x100]
     [o + 1 := v / 0x100 % 0x100]
     [o + 2 := v / 0x1_0000 % 0x100]
     [o + 3 := v / 0x100_0000 % 0x100]
  }

  /** The number whose base-256 digits are the bytes, least significant first. */
  function LeValue(bytes: seq<byte>): nat {
    if bytes == [] then 0 else bytes[0] as int + 0x100 * LeValue(bytes[1..])
  }

  /** A field is the number of its bytes. */
  lemma FieldIsNumber(s: seq<byte>, o: nat)
    requires o + 4 <= |s|
    ensures Le32(s, o) == LeValue(s[o..o + 4])
  {
    var f := s[o..o + 4];
    assert f[1..][1..] == f[2..] && f[2..][1..] == f[3..] && f[3..][1..] == [];
    assert LeValue(f[3..]) == f[3] as int;
    assert LeValue(f[2..]) == f[2] as int + 0x100 * LeValue(f[3..]);
    assert LeValue(f[1..]) == f[1] as int + 0x100 * LeValue(f[2..]);
  }

  /** Two bytes written are the number modulo 2^16. */
  lemma HalfFieldIsNumber(s: seq<byte>, o: nat, v: nat)
    requires o + 2 <= |s|
    ensures LeValue(PutLe16(s, o, v)[o..o + 2]) == v % 0x1_0000
  {
    var f := PutLe16(s, o, v)[o..o + 2];
    assert f[1..][1..] == [];
    assert LeValue(f[1..]) == f[1] as int;
    assert v / 0x100 / 0x100 == v / 0x1_0000;
  }

  lemma Digits(v: nat)
    ensures v % 0x1_0000_0000 ==
      v % 0x100 + 0x100 * (v / 0x100 % 0x100) + 0x1_0000 * (v / 0x1_0000 % 0x100) + 0x100_0000 * (v / 0x100_0000 % 0x100)
  {
    var a := v / 0x100;
    var b := a / 0x100;
    var c := b / 0x100;
    var sum := v % 0x100 + 0x100 * (a % 0x100) + 0x1_0000 * (b % 0x100) + 0x100_0000 * (c % 0x100);
    DividedTwice(v);
    DividedTwice(a);
    assert v / 0x100_0000 == c by {
      DividedAgain(v);
    }
    assert v == 0x1_0000_0000 * (c / 0x100) + sum;
    Remainder(c / 0x100, sum);
  }

  lemma DividedTwice(v: nat)
    ensures v / 0x1_0000 == v / 0x100 / 0x100
  {
  }

  lemma DividedAgain(v: nat)
    ensures v / 0x100_0000 == v / 0x100 / 0x100 / 0x100
  {
    DividedTwice(v);
    assert v / 0x100_0000 == v / 0x1_0000 / 0x100;
  }

  lemma Remainder(q: nat, r: nat)
    requires r < 0x1_0000_0000
    ensures (0x1_0000_0000 * q + r) % 0x1_0000_0000 == r
  {
  }

  /** Writing a field and reading it back gives the value modulo 2^32. */
  lemma PutThenGet(s: seq<byte>, o: nat, v: nat)
    requires o + 4 <= |s|
    ensures Le32(PutLe32(s, o, v), o) == v % 0x1_0000_0000
  {
    Digits(v);
  }

  /** A field that does not overlap the written one keeps its value. */
  lemma PutKeepsOther(s: seq<byte>, o: nat, v: nat, p: nat)
    requires o + 4 <= |s| && p + 4 <= |s|
    requires p + 4 <= o || o + 4 <= p
    ensures Le32(PutLe32(s, o, v), p) == Le32(s, p)
  {
  }
}
