/**
 * The Intel HEX printer of bit2mcs.c, with a reader written from the Intel
 * Hexadecimal Object File Format Specification, Revision A: the sections "General
 * Record Format", "Extended Linear Address Record", "Data Record" and "End of File
 * Record".
 */
module HexFile {
  import opened Bytes

  const WORD: nat := 0x1_0000_0000
  const SEGMENT: nat := 0x1_0000

  datatype Option<T> = None | Some(value: T)

  // ----- hexadecimal text

  function Digit(d: nat): char
    requires d < 16
  {
    "0123456789ABCDEF"[d]
  }

  function Value(c: char): Option<nat> {
    if '0' <= c <= '9' then Some(c as int - '0' as int)
    else if 'A' <= c <= 'F' then Some(c as int - 'A' as int + 10)
    else None
  }

  /** "%02X" */
  function Hex2(b: byte): string { [Digit(b / 16), Digit(b % 16)] }

  /** "%04X" */
  function Hex4(v: nat): string
    requires v < SEGMENT
  {
    Hex2(v / 0x100) + Hex2(v % 0x100)
  }

  function HexAll(bs: seq<byte>): string {
    if bs == [] then "" else HexAll(bs[..|bs| - 1]) + Hex2(bs[|bs| - 1])
  }

  function Parse(s: string): Option<seq<byte>> {
    if s == "" then Some([])
    else if |s| == 1 then None
    else
      var before, high, low := Parse(s[..|s| - 2]), Value(s[|s| - 2]), Value(s[|s| - 1]);
      if before.Some? && high.Some? && low.Some? && high.value < 16 && low.value < 16
      then Some(before.value + [16 * high.value + low.value]) else None
  }

  lemma DigitValue(d: nat)
    requires d < 16
    ensures Value(Digit(d)) == Some(d)
  {
  }

  lemma {:induction false} ParseHexAll(bs: seq<byte>)
    ensures Parse(HexAll(bs)) == Some(bs)
  {
    hide Digit, Value;
    if bs != [] {
      var before, last := bs[..|bs| - 1], bs[|bs| - 1];
      ParseHexAll(before);
      var s := HexAll(bs);
      assert s[..|s| - 2] == HexAll(before);
      DigitValue(last / 16);
      DigitValue(last % 16);
      assert bs == before + [last];
    }
  }

  lemma HexAppend(bs: seq<byte>, b: byte)
    ensures HexAll(bs + [b]) == HexAll(bs) + Hex2(b)
  {
    assert (bs + [b])[..|bs|] == bs;
  }

  // ----- the reader

  function Sum(bs: seq<byte>): nat {
    if bs == [] then 0 else Sum(bs[..|bs| - 1]) + bs[|bs| - 1]
  }

  /** Record length, load offset, record type, data and checksum of one line. */
  datatype Record = Record(kind: byte, offset: nat, data: seq<byte>)

  function ReadRecord(line: string): Option<Record> {
    if line == "" || line[0] != ':' then None
    else
      var bytes := Parse(line[1..]);
      if bytes.None? || |bytes.value| < 5 then None
      else
        var bs := bytes.value;
        if bs[0] as int == |bs| - 5 && Sum(bs) % 0x100 == 0
        then Some(Record(bs[3], 0x100 * bs[1] as int + bs[2] as int, bs[4..|bs| - 1])) else None
  }

  /** The loader: the linear base address and the bytes placed so far. */
  datatype Loader = Loading(base: nat, image: map<nat, byte>) | Ended(image: map<nat, byte>) | Malformed

  /** Address a + i; addresses count modulo 4G. */
  function Place(a: nat, i: nat): (p: nat)
    ensures p < WORD
  {
    (a + i) % WORD
  }

  /** Byte i of a data record goes to (base + offset + i) mod 4G. */
  function PutAll(image: map<nat, byte>, address: nat, data: seq<byte>): map<nat, byte> {
    if data == [] then image
    else PutAll(image, address, data[..|data| - 1])[Place(address, |data| - 1) := data[|data| - 1]]
  }

  function Apply(l: Loader, r: Record): Loader {
    if !l.Loading? then Malformed
    else if r.kind == 0x00 then Loading(l.base, PutAll(l.image, l.base + r.offset, r.data))
    else if r.kind == 0x01 && r.data == [] then Ended(l.image)
    else if r.kind == 0x04 && |r.data| == 2
      then Loading(SEGMENT * (0x100 * r.data[0] as int + r.data[1] as int), l.image)
    else Malformed
  }

  function Take(l: Loader, line: string): Loader {
    var r := ReadRecord(line);
    if r.None? then Malformed else Apply(l, r.value)
  }

  function Load(lines: seq<string>): Loader {
    if lines == [] then Loading(0, map[]) else Take(Load(lines[..|lines| - 1]), lines[|lines| - 1])
  }

  /** The loader on records, going on from l. */
  function LoadFrom(l: Loader, rs: seq<Record>): Loader
    decreases |rs|
  {
    if rs == [] then l else LoadFrom(Apply(l, rs[0]), rs[1..])
  }

  lemma {:induction false} LoadOneMore(l: Loader, rs: seq<Record>, r: Record)
    ensures LoadFrom(l, rs + [r]) == Apply(LoadFrom(l, rs), r)
    decreases |rs|
  {
    hide Apply;
    if rs == [] {
      assert rs + [r] == [r] && [r][1..] == [];
    } else {
      assert (rs + [r])[1..] == rs[1..] + [r];
      LoadOneMore(Apply(l, rs[0]), rs[1..], r);
    }
  }

  lemma LoadFirst(l: Loader, r: Record, rs: seq<Record>)
    ensures LoadFrom(l, [r] + rs) == LoadFrom(Apply(l, r), rs)
  {
    hide Apply;
    assert ([r] + rs)[1..] == rs;
  }

  /** The lines are those of the records, in order. */
  predicate ReadAs(lines: seq<string>, rs: seq<Record>) {
    |lines| == |rs| && forall i :: 0 <= i < |rs| ==> ReadRecord(lines[i]) == Some(rs[i])
  }

  lemma {:induction false} LoadReadAs(lines: seq<string>, rs: seq<Record>)
    requires ReadAs(lines, rs)
    ensures Load(lines) == LoadFrom(Loading(0, map[]), rs)
  {
    hide ReadRecord, Apply;
    if rs != [] {
      var n := |rs| - 1;
      LoadReadAs(lines[..n], rs[..n]);
      LoadOneMore(Loading(0, map[]), rs[..n], rs[n]);
      assert rs == rs[..n] + [rs[n]];
    }
  }

  /** A data record stays within one 64 KB segment. */
  predicate WithinSegment(r: Record) {
    r.kind == 0 ==> r.offset + |r.data| <= SEGMENT
  }

  lemma {:induction false} SumConcat(a: seq<byte>, b: seq<byte>)
    ensures Sum(a + b) == Sum(a) + Sum(b)
  {
    if b == [] {
      assert a + b == a;
    } else {
      assert (a + b)[..|a + b| - 1] == a + b[..|b| - 1];
      SumConcat(a, b[..|b| - 1]);
    }
  }

  lemma {:induction false} PutAllConcat(image: map<nat, byte>, address: nat, a: seq<byte>, b: seq<byte>)
    ensures PutAll(image, address, a + b) == PutAll(PutAll(image, address, a), address + |a|, b)
  {
    hide Place;
    if b == [] {
      assert a + b == a;
    } else {
      assert (a + b)[..|a + b| - 1] == a + b[..|b| - 1];
      PutAllConcat(image, address, a, b[..|b| - 1]);
      MovedPlace(address, |a|, |b| - 1);
    }
  }

  lemma SamePlaces(a: nat, b: nat, i: nat)
    requires a % WORD == b % WORD
    ensures Place(a, i) == Place(b, i)
  {
  }

  lemma MovedPlace(a: nat, n: nat, i: nat)
    ensures Place(a + n, i) == Place(a, n + i)
  {
  }

  lemma {:induction false} PutAllWraps(image: map<nat, byte>, a: nat, b: nat, data: seq<byte>)
    requires a % WORD == b % WORD
    ensures PutAll(image, a, data) == PutAll(image, b, data)
  {
    hide Place;
    if data != [] {
      SamePlaces(a, b, |data| - 1);
      PutAllWraps(image, a, b, data[..|data| - 1]);
    }
  }

  lemma DistinctPlaces(a: nat, i: nat, n: nat)
    requires i < n < WORD
    ensures Place(a, i) != Place(a, n)
  {
    var q := (a + i) / WORD;
    assert a + i == WORD * q + Place(a, i);
  }

  /** Up to 4 GB of input, byte i is at address + i and nothing is elsewhere. */
  lemma {:induction false} ImageOf(address: nat, data: seq<byte>)
    requires |data| <= WORD
    ensures var image := PutAll(map[], address, data);
            (forall i :: 0 <= i < |data| ==> Place(address, i) in image && image[Place(address, i)] == data[i])
            && (forall k :: k in image ==> exists i :: 0 <= i < |data| && k == Place(address, i))
  {
    hide Place;
    if data != [] {
      var n := |data| - 1;
      var image := PutAll(map[], address, data);
      ImageOf(address, data[..n]);
      forall i | 0 <= i < |data| ensures Place(address, i) in image && image[Place(address, i)] == data[i] {
        if i < n {
          DistinctPlaces(address, i, n);
          assert data[..n][i] == data[i];
        }
      }
      forall k | k in image ensures exists i :: 0 <= i < |data| && k == Place(address, i) {
        if k != Place(address, n) {
          var i :| 0 <= i < n && k == Place(address, i);
          assert i < |data|;
        }
      }
    }
  }

  // ----- the printer

  /** The bytes of a record, checksum included, and its line. */
  function Line(bs: seq<byte>): string { ":" + HexAll(bs) }

  lemma LineAppend(bs: seq<byte>, b: byte)
    ensures Line(bs + [b]) == Line(bs) + Hex2(b)
  {
    HexAppend(bs, b);
  }

  lemma ReadLine(bs: seq<byte>)
    requires |bs| >= 5 && bs[0] as int == |bs| - 5 && Sum(bs) % 0x100 == 0
    ensures ReadRecord(Line(bs)) == Some(Record(bs[3], 0x100 * bs[1] as int + bs[2] as int, bs[4..|bs| - 1]))
  {
    hide HexAll, Parse, Sum;
    ParseHexAll(bs);
    assert Line(bs)[1..] == HexAll(bs);
  }

  /** The last byte of a record, (-chksum) & 0xFF, makes the sum of all its bytes divisible by 256. */
  lemma ChecksumCompletes(bs: seq<byte>, chksum: nat)
    requires chksum % 0x100 == Sum(bs) % 0x100
    ensures Sum(bs + [(0x100 - chksum % 0x100) % 0x100]) % 0x100 == 0
  {
    assert (bs + [(0x100 - chksum % 0x100) % 0x100])[..|bs|] == bs;
  }

  function ExtendedBytes(loadAddr: nat): seq<byte>
    requires loadAddr < WORD
  {
    [2, 0, 0, 4, loadAddr / 0x100_0000, loadAddr / 0x1_0000 % 0x100]
  }

  function DataHeader(n: byte, loadAddr: nat): seq<byte> {
    [n, loadAddr / 0x100 % 0x100, loadAddr % 0x100, 0]
  }

  /** The extended linear address record. */
  method PrintExtended(loadAddr: nat) returns (line: string)
    requires loadAddr < WORD
    ensures ReadRecord(line) == Some(Record(4, 0, [loadAddr / 0x100_0000, loadAddr / 0x1_0000 % 0x100]))
  {
    hide Hex2, HexAll, ReadRecord, Sum;
    ghost var bs := ExtendedBytes(loadAddr);
    line := ":02000004";
    HexSix(bs);
    Literals();
    assert line == ":" + Hex2(2) + Hex2(0) + Hex2(0) + Hex2(4);
    line := line + Hex4(loadAddr / SEGMENT);
    assert line == Line(bs);
    var chksum := 0x02 + 0x04 + loadAddr / 0x100_0000 % 0x100 + loadAddr / 0x1_0000 % 0x100;
    SumSix(bs);
    var last: byte := (0x100 - chksum % 0x100) % 0x100;
    LineAppend(bs, last);
    ChecksumCompletes(bs, chksum);
    line := line + Hex2(last);
    ReadLine(bs + [last]);
    assert (bs + [last])[4..6] == [loadAddr / 0x100_0000, loadAddr / 0x1_0000 % 0x100];
  }

  lemma Literals()
    ensures Hex2(0) == "00" && Hex2(1) == "01" && Hex2(2) == "02" && Hex2(4) == "04" && Hex2(0xff) == "FF"
  {
  }

  lemma HexSix(bs: seq<byte>)
    requires |bs| == 6
    ensures HexAll(bs) == Hex2(bs[0]) + Hex2(bs[1]) + Hex2(bs[2]) + Hex2(bs[3]) + (Hex2(bs[4]) + Hex2(bs[5]))
  {
    hide Hex2, HexAll;
    HexFour(bs[..4]);
    HexAppend(bs[..4], bs[4]);
    HexAppend(bs[..5], bs[5]);
    assert bs[..4] + [bs[4]] == bs[..5] && bs[..5] + [bs[5]] == bs;
  }

  lemma HexFour(bs: seq<byte>)
    requires |bs| == 4
    ensures HexAll(bs) == Hex2(bs[0]) + Hex2(bs[1]) + Hex2(bs[2]) + Hex2(bs[3])
  {
    hide Hex2;
    assert HexAll(bs[..1]) == Hex2(bs[0]);
    assert bs[..2][..1] == bs[..1] && bs[..3][..2] == bs[..2];
    assert HexAll(bs[..2]) == HexAll(bs[..1]) + Hex2(bs[1]);
    assert HexAll(bs[..3]) == HexAll(bs[..2]) + Hex2(bs[2]);
  }

  lemma SumFour(bs: seq<byte>)
    requires |bs| == 4
    ensures Sum(bs) == bs[0] as int + bs[1] as int + bs[2] as int + bs[3] as int
  {
    assert bs[..3][..2] == bs[..2] && bs[..2][..1] == bs[..1];
    assert Sum(bs[..1]) == bs[0] as int;
    assert Sum(bs[..2]) == bs[0] as int + bs[1] as int;
    assert Sum(bs[..3]) == bs[0] as int + bs[1] as int + bs[2] as int;
  }

  lemma SumSix(bs: seq<byte>)
    requires |bs| == 6
    ensures Sum(bs) == bs[0] as int + bs[1] as int + bs[2] as int + bs[3] as int + bs[4] as int + bs[5] as int
  {
    SumFour(bs[..4]);
    assert bs[..5][..4] == bs[..4];
    assert Sum(bs[..5]) == Sum(bs[..4]) + bs[4] as int;
  }

  /** The data record of the bytes in lineData, with the checksum of those bytes so far. */
  method PrintData(lineData: array<byte>, numBytes: nat, loadAddr: nat, sum: nat) returns (line: string)
    requires lineData.Length == 16 && numBytes <= 16 && loadAddr < WORD && sum == Sum(lineData[..numBytes])
    ensures ReadRecord(line) == Some(Record(0, loadAddr % SEGMENT, lineData[..numBytes]))
  {
    hide Hex2, HexAll, ReadRecord, Sum;
    var chksum := sum;
    ghost var data := lineData[..numBytes];
    ghost var header := DataHeader(numBytes, loadAddr);
    line := ":" + Hex2(numBytes) + Hex4(loadAddr % SEGMENT) + "00";
    HexFour(header);
    SameSegmentBytes(loadAddr);
    Literals();
    assert line == Line(header) && header + data[..0] == header;
    var i := 0;
    while i < numBytes
      invariant i <= numBytes && line == Line(header + data[..i])
    {
      LineAppend(header + data[..i], data[i]);
      assert header + data[..i] + [data[i]] == header + data[..i + 1];
      line := line + Hex2(lineData[i]);
      i := i + 1;
    }
    assert data[..i] == data;
    ghost var bs := header + data;
    chksum := chksum + numBytes;
    chksum := chksum + loadAddr / 0x100 % 0x100 + loadAddr % 0x100;
    SumConcat(header, data);
    SumFour(header);
    var last: byte := (0x100 - chksum % 0x100) % 0x100;
    ChecksumCompletes(bs, chksum);
    LineAppend(bs, last);
    line := line + Hex2(last);
    ReadLine(bs + [last]);
    assert (bs + [last])[4..|bs + [last]| - 1] == data;
  }

  lemma SameSegmentBytes(loadAddr: nat)
    ensures loadAddr % SEGMENT / 0x100 == loadAddr / 0x100 % 0x100 && loadAddr % SEGMENT % 0x100 == loadAddr % 0x100
    ensures 0x100 * (loadAddr / 0x100 % 0x100) + loadAddr % 0x100 == loadAddr % SEGMENT
  {
    var q, m := loadAddr / SEGMENT, loadAddr % SEGMENT;
    assert loadAddr == 0x100 * (0x100 * q + m / 0x100) + m % 0x100;
    assert loadAddr / 0x100 == 0x100 * q + m / 0x100;
  }

  // ----- what the printer prints

  /** The records of the bytes `rest`, printed from loadAddr on. */
  function RecordsFrom(loadAddr: nat, rest: seq<byte>): (rs: seq<Record>)
    requires loadAddr < WORD
    decreases |rest|
  {
    Announced(loadAddr) +
    if rest == [] then []
    else if |rest| < 16 then [Record(0, loadAddr % SEGMENT, rest)]
    else [Record(0, loadAddr % SEGMENT, rest[..16])] + RecordsFrom((loadAddr + 16) % WORD, rest[16..])
  }

  /** At the start of a segment its number is announced. */
  function Announced(loadAddr: nat): seq<Record>
    requires loadAddr < WORD
  {
    if loadAddr % SEGMENT == 0 then [Record(4, 0, [loadAddr / 0x100_0000, loadAddr / 0x1_0000 % 0x100])] else []
  }

  const END_RECORD := Record(1, 0, [])

  lemma ReadAsOneMore(lines: seq<string>, rs: seq<Record>, line: string, r: Record)
    requires ReadAs(lines, rs) && ReadRecord(line) == Some(r)
    ensures ReadAs(lines + [line], rs + [r])
  {
    hide ReadRecord;
  }

  /** The loop of bit2mcs over the bytes of the input file. */
  method Bit2Mcs(input: seq<byte>, start: nat) returns (out: seq<string>)
    requires start < WORD
    ensures ReadAs(out, RecordsFrom(start, input) + [END_RECORD])
    ensures LoadsRight(start, |input|) ==> Load(out) == Ended(PutAll(map[], start, input))
    ensures |input| <= WORD && !LoadsRight(start, |input|) ==> Load(out) != Ended(PutAll(map[], start, input))
  {
    hide ReadRecord, ReadAs, PutAll, Load, Sum, LoadFrom, RecordsFrom, Announced;
    out := [];
    var loadAddr: nat := start;
    var lineData := new byte[16](_ => 0);
    var pos: nat := 0;
    ghost var printed: seq<Record> := [];
    NothingPrinted(start, input);
    while true
      invariant pos <= |input| && loadAddr < WORD && ReadAs(out, printed)
      invariant printed + RecordsFrom(loadAddr, input[pos..]) == RecordsFrom(start, input)
      decreases |input| - pos
    {
      NextRecords(printed, loadAddr, input[pos..]);
      if loadAddr % SEGMENT == 0 {
        var line := PrintExtended(loadAddr);
        ghost var r := Record(4, 0, [loadAddr / 0x100_0000, loadAddr / 0x1_0000 % 0x100]);
        ReadAsOneMore(out, printed, line, r);
        out, printed := out + [line], printed + [r];
      }
      var numBytes, chksum := ReadLineData(input, pos, lineData);
      if numBytes == 0 {
        break;
      }
      var line := PrintData(lineData, numBytes, loadAddr, chksum);
      ghost var r := Record(0, loadAddr % SEGMENT, input[pos..pos + numBytes]);
      ReadAsOneMore(out, printed, line, r);
      out, printed := out + [line], printed + [r];
      assert input[pos..][..numBytes] == input[pos..pos + numBytes] && input[pos..][numBytes..] == input[pos + numBytes..];
      loadAddr := (loadAddr + numBytes) % WORD;
      pos := pos + numBytes;
      if numBytes < 16 {
        break;
      }
    }
    EndRecord();
    ReadAsOneMore(out, printed, ":00000001FF", END_RECORD);
    out := out + [":00000001FF"];
    LoadReadAs(out, printed + [END_RECORD]);
    LoadsExactly(start, input);
  }

  lemma NothingPrinted(start: nat, input: seq<byte>)
    requires start < WORD
    ensures ReadAs([], []) && [] + RecordsFrom(start, input[0..]) == RecordsFrom(start, input)
  {
    assert input[0..] == input;
  }

  /** What one turn of the loop adds. */
  lemma NextRecords(printed: seq<Record>, loadAddr: nat, rest: seq<byte>)
    requires loadAddr < WORD
    ensures var now := if loadAddr % SEGMENT == 0 then printed + [Record(4, 0, [loadAddr / 0x100_0000, loadAddr / 0x1_0000 % 0x100])] else printed;
            && (rest == [] ==> now == printed + RecordsFrom(loadAddr, rest))
            && (0 < |rest| < 16 ==> now + [Record(0, loadAddr % SEGMENT, rest[..|rest|])] == printed + RecordsFrom(loadAddr, rest))
            && (|rest| >= 16 ==> now + [Record(0, loadAddr % SEGMENT, rest[..16])] + RecordsFrom((loadAddr + 16) % WORD, rest[16..])
                                 == printed + RecordsFrom(loadAddr, rest))
  {
    assert rest[..|rest|] == rest;
  }

  /** fgetc into lineData until 16 bytes are there or the input ends. */
  method ReadLineData(input: seq<byte>, pos: nat, lineData: array<byte>) returns (numBytes: nat, chksum: nat)
    requires pos <= |input| && lineData.Length == 16
    modifies lineData
    ensures numBytes == (if |input| - pos < 16 then |input| - pos else 16)
    ensures lineData[..numBytes] == input[pos..pos + numBytes] && chksum == Sum(lineData[..numBytes])
  {
    chksum, numBytes := 0, 0;
    while numBytes < 16
      invariant numBytes <= 16 && pos + numBytes <= |input|
      invariant lineData[..numBytes] == input[pos..pos + numBytes] && chksum == Sum(lineData[..numBytes])
    {
      if pos + numBytes == |input| {
        break;
      }
      lineData[numBytes] := input[pos + numBytes];
      chksum := chksum + lineData[numBytes];
      numBytes := numBytes + 1;
      assert lineData[..numBytes][..numBytes - 1] == input[pos..pos + numBytes - 1];
    }
  }

  lemma EndRecord()
    ensures ReadRecord(":00000001FF") == Some(END_RECORD)
  {
    hide Hex2, HexAll, ReadRecord;
    var bs: seq<byte> := [0, 0, 0, 1];
    HexFour(bs);
    LineAppend(bs, 0xff);
    Literals();
    assert ":00000001FF" == Line(bs + [0xff]);
    SumFour(bs);
    SumConcat(bs, [0xff]);
    ReadLine(bs + [0xff]);
    assert (bs + [0xff])[4..4] == [];
  }

  // ----- when it loads where it should

  /**
   * n bytes printed from start load at start: there are none, or the first segment
   * is announced, or it is segment 0 and either every later segment is announced
   * or the last data record starts before the next segment.
   */
  predicate LoadsRight(start: nat, n: nat) {
    n == 0 || start % SEGMENT == 0 || (start < SEGMENT && (start % 16 == 0 || start + (n - 1) / 16 * 16 < SEGMENT))
  }

  /** Starting with the right base, or with a segment to be announced, the bytes go to their places. */
  lemma {:induction false} PlacedRight(loadAddr: nat, rest: seq<byte>, base: nat, image: map<nat, byte>)
    requires loadAddr < WORD && (loadAddr % SEGMENT == 0 || rest == [] || base + loadAddr % SEGMENT == loadAddr)
    requires loadAddr % 16 == 0 || (rest != [] ==> loadAddr % SEGMENT + (|rest| - 1) / 16 * 16 < SEGMENT)
    ensures var l := LoadFrom(Loading(base, image), RecordsFrom(loadAddr, rest));
            l.Loading? && l.image == PutAll(image, loadAddr, rest)
    decreases |rest|
  {
    hide Place, PutAll, LoadFrom, RecordsFrom;
    var base' := if loadAddr % SEGMENT == 0 then loadAddr else base;
    FirstRecords(loadAddr, rest, base, image);
    AddressSplit(loadAddr);
    PutNothing(image, loadAddr);
    if |rest| >= 16 {
      var image' := PutAll(image, loadAddr, rest[..16]);
      var next := (loadAddr + 16) % WORD;
      NextFits(loadAddr, base', |rest|);
      PlacedRight(next, rest[16..], base', image');
      PutAllConcat(image, loadAddr, rest[..16], rest[16..]);
      assert rest[..16] + rest[16..] == rest;
      PutAllWraps(image', next, loadAddr + 16, rest[16..]);
    }
  }

  lemma PutNothing(image: map<nat, byte>, a: nat)
    ensures PutAll(image, a, []) == image
  {
  }

  /** Loading what is printed first: the announcement, then the first data record. */
  lemma FirstRecords(loadAddr: nat, rest: seq<byte>, base: nat, image: map<nat, byte>)
    requires loadAddr < WORD
    ensures var base' := if loadAddr % SEGMENT == 0 then loadAddr else base;
            var l := LoadFrom(Loading(base, image), RecordsFrom(loadAddr, rest));
            && (rest == [] ==> l == Loading(base', image))
            && (0 < |rest| < 16 ==> l == Loading(base', PutAll(image, base' + loadAddr % SEGMENT, rest)))
            && (|rest| >= 16 ==> l == LoadFrom(Loading(base', PutAll(image, base' + loadAddr % SEGMENT, rest[..16])),
                                               RecordsFrom((loadAddr + 16) % WORD, rest[16..])))
  {
    hide PutAll, LoadFrom, Apply, Announced, RecordsFrom;
    RecordsAre(loadAddr, rest);
    var l := Loading(base, image);
    var l' := Loading(if loadAddr % SEGMENT == 0 then loadAddr else base, image);
    if rest == [] {
      AfterAnnounced(loadAddr, l, []);
      LoadNothing(l');
    } else if |rest| < 16 {
      AfterAnnounced(loadAddr, l, [Record(0, loadAddr % SEGMENT, rest)]);
      AfterData(loadAddr % SEGMENT, l', rest, []);
      assert [Record(0, loadAddr % SEGMENT, rest)] + [] == [Record(0, loadAddr % SEGMENT, rest)];
      LoadNothing(Loading(l'.base, PutAll(image, l'.base + loadAddr % SEGMENT, rest)));
    } else {
      var later := RecordsFrom((loadAddr + 16) % WORD, rest[16..]);
      AfterAnnounced(loadAddr, l, [Record(0, loadAddr % SEGMENT, rest[..16])] + later);
      AfterData(loadAddr % SEGMENT, l', rest[..16], later);
    }
  }

  lemma RecordsAre(loadAddr: nat, rest: seq<byte>)
    requires loadAddr < WORD
    ensures rest == [] ==> RecordsFrom(loadAddr, rest) == Announced(loadAddr) + []
    ensures 0 < |rest| < 16 ==> RecordsFrom(loadAddr, rest) == Announced(loadAddr) + [Record(0, loadAddr % SEGMENT, rest)]
    ensures |rest| >= 16 ==>
              RecordsFrom(loadAddr, rest) ==
              Announced(loadAddr) + ([Record(0, loadAddr % SEGMENT, rest[..16])] + RecordsFrom((loadAddr + 16) % WORD, rest[16..]))
  {
    hide Announced;
  }

  lemma LoadNothing(l: Loader)
    ensures LoadFrom(l, []) == l
  {
  }

  lemma AfterAnnounced(loadAddr: nat, l: Loader, rs: seq<Record>)
    requires loadAddr < WORD && l.Loading?
    ensures LoadFrom(l, Announced(loadAddr) + rs) == LoadFrom(Loading(if loadAddr % SEGMENT == 0 then loadAddr else l.base, l.image), rs)
  {
    hide LoadFrom;
    if loadAddr % SEGMENT == 0 {
      var r := Record(4, 0, [loadAddr / 0x100_0000, loadAddr / 0x1_0000 % 0x100]);
      assert Announced(loadAddr) == [r];
      LoadFirst(l, r, rs);
      assert loadAddr / 0x1_0000 == 0x100 * (loadAddr / 0x100_0000) + loadAddr / 0x1_0000 % 0x100;
    } else {
      assert Announced(loadAddr) + rs == rs;
    }
  }

  lemma AfterData(offset: nat, l: Loader, data: seq<byte>, rs: seq<Record>)
    requires l.Loading?
    ensures LoadFrom(l, [Record(0, offset, data)] + rs) == LoadFrom(Loading(l.base, PutAll(l.image, l.base + offset, data)), rs)
  {
    hide *;
    LoadFirst(l, Record(0, offset, data), rs);
    ApplyData(l, offset, data);
  }

  lemma ApplyData(l: Loader, offset: nat, data: seq<byte>)
    requires l.Loading?
    ensures Apply(l, Record(0, offset, data)) == Loading(l.base, PutAll(l.image, l.base + offset, data))
  {
    hide PutAll;
  }

  lemma AddressSplit(a: nat)
    ensures a % SEGMENT == 0 ==> a + a % SEGMENT == a
    ensures a % SEGMENT % 16 == a % 16 && a % SEGMENT <= SEGMENT - 16 + a % 16
  {
    assert a == SEGMENT * (a / SEGMENT) + a % SEGMENT;
    WithinSixteen(a, a / SEGMENT, a % SEGMENT);
  }

  /** A segment has 4096 lines of 16 bytes. */
  lemma WithinSixteen(a: nat, q: nat, m: nat)
    requires a == SEGMENT * q + m && m < SEGMENT
    ensures m % 16 == a % 16 && m <= SEGMENT - 16 + m % 16
  {
    var k := m / 16;
    assert m == 16 * k + m % 16 && k <= 4095;
    SixteenRest(a, 4096 * q + k, m % 16);
  }

  lemma SixteenRest(a: nat, k: nat, r: nat)
    requires a == 16 * k + r && r < 16
    ensures a % 16 == r
  {
  }

  /** Sixteen bytes on, within the segment or at the start of the next. */
  lemma Sixteen(a: nat)
    requires a < WORD
    ensures a % SEGMENT + 16 < SEGMENT ==> (a + 16) % WORD == a + 16 && (a + 16) % SEGMENT == a % SEGMENT + 16
    ensures a % SEGMENT + 16 == SEGMENT ==> (a + 16) % WORD % SEGMENT == 0
    ensures (a + 16) % WORD % 16 == a % 16
  {
    var q, m := a / SEGMENT, a % SEGMENT;
    assert a == SEGMENT * q + m && q < SEGMENT;
    if m + 16 < SEGMENT {
      assert a + 16 == SEGMENT * q + (m + 16);
    } else if m + 16 == SEGMENT {
      assert a + 16 == SEGMENT * (q + 1);
    }
    if a + 16 >= WORD {
      assert (a + 16) % WORD == a + 16 - WORD;
    }
  }

  lemma NextFits(loadAddr: nat, base: nat, n: nat)
    requires loadAddr < WORD && n >= 16 && base + loadAddr % SEGMENT == loadAddr
    requires loadAddr % 16 == 0 || loadAddr % SEGMENT + (n - 1) / 16 * 16 < SEGMENT
    ensures var next := (loadAddr + 16) % WORD;
            && (next % SEGMENT == 0 || base + next % SEGMENT == next || n == 16)
            && (next % 16 == 0 || (n > 16 ==> next % SEGMENT + (n - 17) / 16 * 16 < SEGMENT))
  {
    Sixteen(loadAddr);
    AddressSplit(loadAddr);
    if loadAddr % 16 != 0 && n > 16 {
      assert (n - 1) / 16 == (n - 17) / 16 + 1;
    }
  }

  ghost predicate KeysBelow(image: map<nat, byte>, bound: nat) {
    forall k :: k in image ==> k < bound
  }

  lemma {:induction false} PutAllBelow(image: map<nat, byte>, a: nat, data: seq<byte>, bound: nat)
    requires KeysBelow(image, bound) && a + |data| <= bound <= WORD
    ensures KeysBelow(PutAll(image, a, data), bound)
  {
    if data != [] {
      PutAllBelow(image, a, data[..|data| - 1], bound);
    }
  }

  lemma {:induction false} PutAllKeeps(image: map<nat, byte>, a: nat, data: seq<byte>, k: nat)
    requires forall i :: 0 <= i < |data| ==> Place(a, i) != k
    ensures k in PutAll(image, a, data) <==> k in image
  {
    hide Place;
    if data != [] {
      PutAllKeeps(image, a, data[..|data| - 1], k);
    }
  }

  /** From an address between the multiples of 16 on no segment is ever announced, and nothing gets past the first 64 KB and 15 bytes. */
  lemma {:induction false} NeverAnnounced(loadAddr: nat, rest: seq<byte>, image: map<nat, byte>)
    requires loadAddr < WORD && loadAddr % 16 != 0 && KeysBelow(image, SEGMENT + loadAddr % 16)
    ensures var l := LoadFrom(Loading(0, image), RecordsFrom(loadAddr, rest));
            l.Loading? && KeysBelow(l.image, SEGMENT + loadAddr % 16)
    decreases |rest|
  {
    hide PutAll, LoadFrom, RecordsFrom, KeysBelow;
    FirstRecords(loadAddr, rest, 0, image);
    AddressSplit(loadAddr);
    if 0 < |rest| < 16 {
      PutAllBelow(image, loadAddr % SEGMENT, rest, SEGMENT + loadAddr % 16);
    } else if |rest| >= 16 {
      PutAllBelow(image, loadAddr % SEGMENT, rest[..16], SEGMENT + loadAddr % 16);
      Sixteen(loadAddr);
      NeverAnnounced((loadAddr + 16) % WORD, rest[16..], PutAll(image, loadAddr % SEGMENT, rest[..16]));
    }
  }

  /** From a multiple of 16 inside a later segment the start itself is never loaded: what is not announced lies in segment 0, what is lies behind. */
  lemma {:induction false} NeverAtStart(start: nat, pos: nat, loadAddr: nat, rest: seq<byte>, base: nat, image: map<nat, byte>)
    requires SEGMENT <= start < WORD && start % 16 == 0 && start % SEGMENT != 0 && start !in image
    requires loadAddr == Place(start, pos) && pos % 16 == 0 && pos + |rest| <= WORD
    requires base == 0 || loadAddr % SEGMENT == 0 || (pos > 0 && base + loadAddr % SEGMENT == loadAddr)
    ensures var l := LoadFrom(Loading(base, image), RecordsFrom(loadAddr, rest));
            l.Loading? && start !in l.image
    decreases |rest|
  {
    hide PutAll, LoadFrom, RecordsFrom;
    var base' := if loadAddr % SEGMENT == 0 then loadAddr else base;
    FirstRecords(loadAddr, rest, base, image);
    var n := if |rest| < 16 then |rest| else 16;
    NotThere(start, pos, loadAddr, n, base', base' + loadAddr % SEGMENT);
    PutAllKeeps(image, base' + loadAddr % SEGMENT, rest[..n], start);
    assert n == |rest| ==> rest[..n] == rest;
    if |rest| >= 16 {
      NextPlace(start, pos, loadAddr, base');
      NeverAtStart(start, pos + 16, (loadAddr + 16) % WORD, rest[16..], base', PutAll(image, base' + loadAddr % SEGMENT, rest[..16]));
    }
  }

  lemma NotThere(start: nat, pos: nat, loadAddr: nat, n: nat, base: nat, a: nat)
    requires SEGMENT <= start < WORD && start % 16 == 0 && start % SEGMENT != 0 && n <= 16
    requires loadAddr == Place(start, pos) && pos % 16 == 0 && pos + n <= WORD
    requires if loadAddr % SEGMENT == 0 then base == loadAddr else base == 0 || (pos > 0 && base + loadAddr % SEGMENT == loadAddr)
    requires a == base + loadAddr % SEGMENT
    ensures forall i :: 0 <= i < n ==> Place(a, i) != start
  {
    hide Place;
    AddressSplit(loadAddr);
    SixteenFromStart(start, pos);
    AtPlace(start, pos);
    forall i | 0 <= i < n ensures Place(a, i) != start {
      if base == 0 && loadAddr % SEGMENT != 0 {
        assert a + i < SEGMENT;
      } else {
        assert a == loadAddr && 0 < pos + i;
        DistinctPlaces(start, 0, pos + i);
        MovedPlace(start, pos, i);
        SamePlaces(a, start + pos, i);
      }
    }
  }

  lemma AtPlace(start: nat, pos: nat)
    ensures Place(start, pos) % WORD == (start + pos) % WORD && (start < WORD ==> Place(start, 0) == start)
    ensures forall a, i {:trigger Place(a, i)} :: 0 <= a && 0 <= i && a + i < WORD ==> Place(a, i) == a + i
  {
  }

  lemma NextPlace(start: nat, pos: nat, loadAddr: nat, base: nat)
    requires loadAddr == Place(start, pos) && start % 16 == 0 && pos % 16 == 0
    ensures (loadAddr + 16) % WORD == Place(start, pos + 16)
    ensures base + loadAddr % SEGMENT == loadAddr ==>
              var next := (loadAddr + 16) % WORD; next % SEGMENT == 0 || base + next % SEGMENT == next
  {
    Sixteen(loadAddr);
    AddressSplit(loadAddr);
    SixteenFromStart(start, pos);
  }

  lemma SixteenFromStart(start: nat, pos: nat)
    requires start % 16 == 0 && pos % 16 == 0
    ensures Place(start, pos) % 16 == 0 && (Place(start, pos) + 16) % WORD == Place(start, pos + 16)
  {
    var q, p := (start + pos) / WORD, Place(start, pos);
    assert start + pos == WORD * q + p;
    assert p == 16 * (start / 16 + pos / 16 - WORD / 16 * q);
    if p + 16 < WORD {
      WordRemainder(start + (pos + 16), q, p + 16);
    } else {
      assert p + 16 == WORD;
      WordRemainder(start + (pos + 16), q + 1, 0);
    }
  }

  lemma WordRemainder(x: nat, q: nat, r: nat)
    requires x == WORD * q + r && r < WORD
    ensures x % WORD == r
  {
  }

  /** The output loads as the input at start exactly when LoadsRight says so. */
  lemma LoadsExactly(start: nat, input: seq<byte>)
    requires start < WORD
    ensures var l := LoadFrom(Loading(0, map[]), RecordsFrom(start, input) + [END_RECORD]);
            && (LoadsRight(start, |input|) ==> l == Ended(PutAll(map[], start, input)))
            && (|input| <= WORD && !LoadsRight(start, |input|) ==> l != Ended(PutAll(map[], start, input)))
  {
    hide PutAll, LoadFrom, RecordsFrom, Place;
    LoadOneMore(Loading(0, map[]), RecordsFrom(start, input), END_RECORD);
    if LoadsRight(start, |input|) {
      PlacedRight(start, input, 0, map[]);
    } else if |input| <= WORD {
      ImageOf(start, input);
      var at := if start < SEGMENT then SEGMENT + start % 16 - start else 0;
      Misplaced(start, input, at);
    }
  }

  /** Byte `at` of the input is not where it should be. */
  lemma Misplaced(start: nat, input: seq<byte>, at: nat)
    requires start < WORD && |input| <= WORD && !LoadsRight(start, |input|)
    requires at == if start < SEGMENT then SEGMENT + start % 16 - start else 0
    ensures at < |input|
    ensures var l := LoadFrom(Loading(0, map[]), RecordsFrom(start, input));
            l.Loading? && Place(start, at) !in l.image
  {
    hide PutAll, LoadFrom, RecordsFrom;
    if start % 16 != 0 {
      NeverAnnounced(start, input, map[]);
    } else {
      NeverAtStart(start, 0, start, input, 0, map[]);
    }
  }

  /** One byte for an address in a segment that is never announced: it is loaded into segment 0. */
  method UnalignedExample(b: byte) returns (out: seq<string>)
    ensures Load(out) == Ended(map[0x10 := b]) && PutAll(map[], 0x1_0010, [b]) == map[0x1_0010 := b]
  {
    hide ReadRecord, Load, LoadFrom;
    out := Bit2Mcs([b], 0x1_0010);
    LoadReadAs(out, RecordsFrom(0x1_0010, [b]) + [END_RECORD]);
    LoadOneMore(Loading(0, map[]), RecordsFrom(0x1_0010, [b]), END_RECORD);
    FirstRecords(0x1_0010, [b], 0, map[]);
    assert [b][..0] == [];
  }

  /** Records of an address that is a multiple of 16 never cross a segment. */
  lemma {:induction false} StayWithin(loadAddr: nat, rest: seq<byte>)
    requires loadAddr < WORD && loadAddr % 16 == 0
    ensures forall i :: 0 <= i < |RecordsFrom(loadAddr, rest)| ==> WithinSegment(RecordsFrom(loadAddr, rest)[i])
    decreases |rest|
  {
    AddressSplit(loadAddr);
    if |rest| >= 16 {
      Sixteen(loadAddr);
      StayWithin((loadAddr + 16) % WORD, rest[16..]);
    }
  }
}
