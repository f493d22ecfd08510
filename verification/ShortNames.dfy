/** The 8.3 name of a directory slot, as extract_out_dos8_3name builds it from bytes 0 to 12. */
module ShortNames {
  import opened Bytes
  import opened LongNames

  /** tolower of the C locale. */
  function Lower(c: byte): byte {
    if 0x41 <= c <= 0x5A then c + 0x20 else c
  }

  /** The bytes that are not zero, in order, in lower case if that is asked for. */
  function Letters(s: seq<byte>, lower: bool): (r: seq<byte>)
    ensures |r| <= |s|
  {
    if s == [] then []
    else
      var before := Letters(s[..|s| - 1], lower);
      var c := s[|s| - 1];
      if c == 0 then before else before + [if lower then Lower(c) else c]
  }

  /** Without the blanks at the end. */
  function Trimmed(s: seq<byte>): (r: seq<byte>)
    ensures r <= s && (r != [] ==> r[|r| - 1] != 0x20)
    ensures forall i :: |r| <= i < |s| ==> s[i] == 0x20
  {
    if s != [] && s[|s| - 1] == 0x20 then Trimmed(s[..|s| - 1]) else s
  }

  predicate HasExtension(s: Slot) {
    s[8] != 0 && s[8] != 0x20
  }

  function Base(s: Slot): seq<byte> {
    Trimmed(Letters(s[..8], s[0x0C] as int / 8 % 2 == 1))
  }

  function WithExtension(base: seq<byte>, s: Slot): seq<byte> {
    Trimmed(base + [0x2E] + Letters(s[8..11], s[0x0C] as int / 16 % 2 == 1))
  }

  function ShortName(s: Slot): seq<byte> {
    if s[0] == 0 then [] else if HasExtension(s) then WithExtension(Base(s), s) else Base(s)
  }

  /** Copies the letters of n bytes of the slot behind the first at bytes of the name. */
  method CopyLetters(dName: array<byte>, at: nat, slot: Slot, from: nat, n: nat, lower: bool) returns (nameLen: nat)
    requires at + n <= dName.Length && from + n <= 32
    modifies dName
    ensures at <= nameLen <= at + n && dName[..nameLen] == old(dName[..at]) + Letters(slot[from..from + n], lower)
  {
    nameLen := at;
    for i := 0 to n
      invariant at <= nameLen <= at + i && dName[..nameLen] == old(dName[..at]) + Letters(slot[from..from + i], lower)
    {
      assert slot[from..from + i + 1][..i] == slot[from..from + i];
      var c := slot[from + i];
      if c != 0 {
        dName[nameLen] := if lower then Lower(c) else c;
        nameLen := nameLen + 1;
        assert dName[..nameLen] == dName[..nameLen - 1] + [dName[nameLen - 1]];
      }
    }
  }

  method TrimBlanks(dName: array<byte>, length: nat) returns (nameLen: nat)
    requires length <= dName.Length
    ensures nameLen <= length && dName[..nameLen] == Trimmed(dName[..length])
  {
    nameLen := length;
    while nameLen > 0 && dName[nameLen - 1] == 0x20
      invariant nameLen <= length && Trimmed(dName[..nameLen]) == Trimmed(dName[..length])
    {
      assert dName[..nameLen][..nameLen - 1] == dName[..nameLen - 1];
      nameLen := nameLen - 1;
    }
  }

  /** The 8-byte name. */
  method ExtractBase(dName: array<byte>, slot: Slot) returns (nameLen: nat)
    requires dName.Length == 13
    modifies dName
    ensures nameLen <= 8 && dName[..nameLen] == Base(slot)
  {
    hide Letters, Trimmed;
    var flags: int := slot[0x0C];
    nameLen := CopyLetters(dName, 0, slot, 0, 8, flags / 8 % 2 == 1);
    assert dName[..nameLen] == Letters(slot[..8], flags / 8 % 2 == 1);
    nameLen := TrimBlanks(dName, nameLen);
  }

  /** The 3-byte extension behind it. */
  method ExtractExtension(dName: array<byte>, slot: Slot, baseLen: nat) returns (nameLen: nat)
    requires dName.Length == 13 && baseLen <= 8
    modifies dName
    ensures nameLen <= 13 && dName[..nameLen] == WithExtension(old(dName[..baseLen]), slot)
  {
    hide Letters, Trimmed;
    var flags: int := slot[0x0C];
    dName[baseLen] := 0x2E;
    nameLen := baseLen + 1;
    assert dName[..nameLen] == old(dName[..baseLen]) + [0x2E];
    nameLen := CopyLetters(dName, nameLen, slot, 8, 3, flags / 16 % 2 == 1);
    nameLen := TrimBlanks(dName, nameLen);
  }

  /** extract_out_dos8_3name */
  method ExtractName(slot: Slot) returns (name: seq<byte>)
    ensures name == ShortName(slot)
  {
    hide Base, WithExtension;
    if slot[0] == 0 {
      return [];
    }
    var dName := new byte[13](_ => 0);
    var nameLen := ExtractBase(dName, slot);
    if slot[8] != 0 && slot[8] != 0x20 {
      nameLen := ExtractExtension(dName, slot, nameLen);
    }
    name := dName[..nameLen];
  }

  // ----- what the name is

  lemma {:induction false} BlankLetters(s: seq<byte>, lower: bool)
    ensures Trimmed(Letters(s, lower)) == [] <==> forall i :: 0 <= i < |s| ==> s[i] == 0 || s[i] == 0x20
  {
    if s != [] {
      var before := s[..|s| - 1];
      BlankLetters(before, lower);
      assert forall i :: 0 <= i < |before| ==> before[i] == s[i];
      var c := s[|s| - 1];
      if c != 0 {
        var r := Letters(s, lower);
        assert r[..|r| - 1] == Letters(before, lower);
      }
    }
  }

  /** A slot in use has a name exactly when one of its first nine bytes is neither zero nor blank. */
  lemma NamedExactly(s: Slot)
    requires s[0] != 0
    ensures ShortName(s) != [] <==> exists i :: 0 <= i <= 8 && s[i] != 0 && s[i] != 0x20
  {
    BlankLetters(s[..8], s[0x0C] as int / 8 % 2 == 1);
    assert forall i :: 0 <= i < 8 ==> s[..8][i] == s[i];
    if HasExtension(s) {
      var whole := Base(s) + [0x2E] + Letters(s[8..11], s[0x0C] as int / 16 % 2 == 1);
      assert whole[|Base(s)|] == 0x2E;
    }
  }

  function Lowered(s: seq<byte>, lower: bool): (r: seq<byte>)
    ensures |r| == |s| && forall i :: 0 <= i < |s| ==> r[i] == if lower then Lower(s[i]) else s[i]
  {
    seq<byte>(|s|, i requires 0 <= i < |s| => if lower then Lower(s[i]) else s[i])
  }

  function Blanks(n: nat): (b: seq<byte>)
    ensures |b| == n && forall i :: 0 <= i < n ==> b[i] == 0x20
  {
    seq<byte>(n, _ => 0x20)
  }

  lemma {:induction false} LettersOf(s: seq<byte>, lower: bool)
    requires ZeroFree(s)
    ensures Letters(s, lower) == Lowered(s, lower)
  {
    if s != [] {
      LettersOf(s[..|s| - 1], lower);
      assert Lowered(s, lower) == Lowered(s[..|s| - 1], lower) + [Lowered(s, lower)[|s| - 1]];
    }
  }

  lemma {:induction false} TrimBack(s: seq<byte>, n: nat)
    requires s == [] || s[|s| - 1] != 0x20
    ensures Trimmed(s + Blanks(n)) == s
  {
    if n > 0 {
      assert (s + Blanks(n))[..|s| + n - 1] == s + Blanks(n - 1);
      TrimBack(s, n - 1);
    } else {
      assert s + Blanks(0) == s;
    }
  }

  /** Part of a name that fills its field up to blanks: no zero in it, and no blank at its end. */
  predicate NamePart(s: seq<byte>) {
    ZeroFree(s) && (s != [] ==> s[|s| - 1] != 0x20)
  }

  lemma PartBack(s: seq<byte>, n: nat, lower: bool)
    requires NamePart(s)
    ensures Letters(s + Blanks(n), lower) == Lowered(s, lower) + Blanks(n)
    ensures Trimmed(Letters(s + Blanks(n), lower)) == Lowered(s, lower)
  {
    LettersOf(s + Blanks(n), lower);
    assert Lowered(s + Blanks(n), lower) == Lowered(s, lower) + Blanks(n);
    TrimBack(Lowered(s, lower), n);
  }

  /**
   * The name that was put into the two fields, padded with blanks, comes back, with a
   * dot before an extension, and in lower case where the flags say so.
   */
  lemma ShortNameRoundTrip(s: Slot, base: seq<byte>, ext: seq<byte>)
    requires NamePart(base) && NamePart(ext) && 1 <= |base| <= 8 && |ext| <= 3 && (ext != [] ==> ext[0] != 0x20)
    requires s[..8] == base + Blanks(8 - |base|) && s[8..11] == ext + Blanks(3 - |ext|)
    ensures ShortName(s) == Lowered(base, s[0x0C] as int / 8 % 2 == 1)
                            + if ext == [] then [] else [0x2E] + Lowered(ext, s[0x0C] as int / 16 % 2 == 1)
  {
    hide Letters, Trimmed, WithExtension, Lowered, Blanks, NamePart;
    FirstBytes(s, base, ext);
    PartBack(base, 8 - |base|, s[0x0C] as int / 8 % 2 == 1);
    if ext != [] {
      ExtensionBack(s, Base(s), ext);
    }
  }

  lemma ExtensionBack(s: Slot, base: seq<byte>, ext: seq<byte>)
    requires NamePart(ext) && 1 <= |ext| <= 3 && s[8..11] == ext + Blanks(3 - |ext|)
    ensures WithExtension(base, s) == base + ([0x2E] + Lowered(ext, s[0x0C] as int / 16 % 2 == 1))
  {
    hide Letters, Trimmed;
    PartBack(ext, 3 - |ext|, s[0x0C] as int / 16 % 2 == 1);
    Joined(base, Lowered(ext, s[0x0C] as int / 16 % 2 == 1), 3 - |ext|);
  }

  lemma FirstBytes(s: Slot, base: seq<byte>, ext: seq<byte>)
    requires NamePart(base) && NamePart(ext) && 1 <= |base| <= 8 && |ext| <= 3 && (ext != [] ==> ext[0] != 0x20)
    requires s[..8] == base + Blanks(8 - |base|) && s[8..11] == ext + Blanks(3 - |ext|)
    ensures s[0] != 0 && (HasExtension(s) <==> ext != [])
  {
    assert s[0] == s[..8][0] == base[0];
    assert s[8] == s[8..11][0];
  }

  lemma Joined(base: seq<byte>, ext: seq<byte>, n: nat)
    requires ext != [] && ext[|ext| - 1] != 0x20
    ensures Trimmed(base + [0x2E] + (ext + Blanks(n))) == base + ([0x2E] + ext)
  {
    hide Trimmed;
    var name := base + ([0x2E] + ext);
    assert base + [0x2E] + (ext + Blanks(n)) == name + Blanks(n);
    assert name[|name| - 1] == ext[|ext| - 1];
    TrimBack(name, n);
  }
}
