/**
 * The window of outstanding request frames as a state machine: which reply frees
 * which slot, what a sector reply stores, and what holds over every run.
 */
module ReplyMatching {
  import opened Bytes
  import WB = WriteBatches

  /** The two sets of callbacks: memory loading, and the sector service of the remote program. */
  datatype Protocol = DmaLoad | Sectors

  /** A slot buffer; bytes past len are left over from earlier frames. */
  datatype RawFrame = Frame(bytes: seq<byte>, len: nat)

  const SLOT_BYTES: nat := 1500
  const WORD: nat := 0x1_0000_0000

  type Frame = f: RawFrame | |f.bytes| == SLOT_BYTES && f.len <= SLOT_BYTES witness Frame(seq(1500, _ => 0), 0)

  function Request(): seq<byte> { [0x6d, 0x72, 0x65, 0x71] }

  function Response(): seq<byte> { [0x6d, 0x72, 0x73, 0x70] }

  // ----- the callbacks

  /** dmaload_parse_load_addr */
  function LoadAddress(p: seq<byte>): nat
    requires |p| >= 47
  {
    p[36] as int * 0x10_0000 + p[46] as int % 0x10 * 0x1_0000 + p[45] as int * 0x100 + p[44] as int
  }

  /** get_packet_seq; -1 when the packet is too short or of the wrong length. */
  function SeqNumber(protocol: Protocol, rx: seq<byte>): int {
    match protocol
    case DmaLoad => if |rx| != 1280 then -1 else rx[190] as int + 0x100 * rx[191] as int
    case Sectors => if |rx| < 6 then -1 else rx[4] as int + 0x100 * rx[5] as int
  }

  /** embed_packet_seq */
  function Embed(protocol: Protocol, payload: seq<byte>, n: nat): (p: seq<byte>)
    ensures |p| == |payload|
  {
    match protocol
    case DmaLoad => if |payload| != 1280 then payload else PutLe16(payload, 190, n)
    case Sectors => if |payload| < 7 then payload else PutLe16(payload, 4, n)
  }

  /** is_duplicate */
  predicate Duplicate(protocol: Protocol, payload: seq<byte>, f: Frame) {
    match protocol
    case DmaLoad => |payload| == 1280 && f.len == 1280 && LoadAddress(payload) == LoadAddress(f.bytes)
    case Sectors => false
  }

  /** match_payloads, without what a match stores */
  predicate Match(protocol: Protocol, rx: seq<byte>, f: Frame) {
    match protocol
    case DmaLoad => |rx| == f.len && rx == f.bytes[..f.len]
    case Sectors =>
      && |rx| >= 7 && f.len >= 7 && rx[..4] == Response() && f.bytes[..4] == Request()
      && (if rx[6] == 0x02 then |rx| == 14 && rx[7..14] == f.bytes[7..14]
          else if rx[6] == 0x04 then |rx| == 525 && rx[9..13] == f.bytes[9..13]
          else if rx[6] == 0x11 then |rx| >= 13 && rx[7..12] == f.bytes[7..12]
          else if rx[6] == 0x12 then |rx| == 8 && rx[4..6] == f.bytes[4..6]
          else (rx[6] == 0xfd || rx[6] == 0xff) && |rx| == 7)
  }

  /** A sector of data, as the remote program sends it. */
  predicate SectorReply(rx: seq<byte>) {
    |rx| == 525 && rx[..4] == Response() && rx[6] == 0x04
  }

  function NamedSector(rx: seq<byte>): nat
    requires SectorReply(rx)
  {
    Le32(rx, 9)
  }

  function SectorBytes(rx: seq<byte>): Sector
    requires SectorReply(rx)
  {
    rx[13..]
  }

  // ----- the state

  /**
   * Slots 0 .. |flags| - 1 are in use as far as the queue length goes.  owner,
   * placed and matched are a log: the frame in slot i is placed[owner[i]], and
   * matched gives the reply that freed a placed frame.
   */
  datatype Window = Window(
    protocol: Protocol,
    flags: seq<bool>,
    frames: seq<Frame>,
    owner: seq<nat>,
    placed: seq<Frame>,
    matched: map<nat, seq<byte>>,
    seqNumber: nat,
    start: nat,
    data: seq<Sector>)

  function Count(flags: seq<bool>): (n: nat)
    ensures n <= |flags|
  {
    if flags == [] then 0 else Count(flags[..|flags| - 1]) + (if flags[|flags| - 1] then 1 else 0)
  }

  predicate Shape(w: Window) {
    |w.frames| == |w.flags| == |w.owner|
  }

  function FirstFree(flags: seq<bool>): (i: nat)
    ensures i <= |flags|
    ensures i < |flags| ==> !flags[i]
    ensures forall k :: 0 <= k < i ==> flags[k]
  {
    if flags == [] || !flags[0] then 0 else 1 + FirstFree(flags[1..])
  }

  predicate HasDuplicate(w: Window, payload: seq<byte>)
    requires Shape(w)
  {
    exists i :: 0 <= i < |w.flags| && w.flags[i] && Duplicate(w.protocol, payload, w.frames[i])
  }

  /** The first slot from index from on whose frame the reply matches. */
  function FirstMatch(w: Window, rx: seq<byte>, from: nat := 0): (i: nat)
    requires Shape(w) && from <= |w.flags|
    ensures from <= i <= |w.flags|
    ensures i < |w.flags| ==> w.flags[i] && Match(w.protocol, rx, w.frames[i])
    ensures forall k :: from <= k < i ==> !(w.flags[k] && Match(w.protocol, rx, w.frames[k]))
    decreases |w.flags| - from
  {
    if from == |w.flags| || (w.flags[from] && Match(w.protocol, rx, w.frames[from])) then from
    else FirstMatch(w, rx, from + 1)
  }

  /** memcpy of a payload into a slot buffer. */
  function Overlay(f: Frame, payload: seq<byte>): Frame
    requires |payload| <= SLOT_BYTES
  {
    Frame(payload + f.bytes[|payload|..], |payload|)
  }

  /** What expect_ack demands before it places a frame. */
  predicate CanPlace(w: Window, payload: seq<byte>)
    requires Shape(w)
  {
    |payload| <= SLOT_BYTES && FirstFree(w.flags) < |w.flags| && !HasDuplicate(w, payload)
  }

  function Place(w: Window, payload: seq<byte>): Window
    requires Shape(w) && CanPlace(w, payload)
  {
    var i := FirstFree(w.flags);
    var f := Overlay(w.frames[i], Embed(w.protocol, payload, w.seqNumber));
    w.(flags := w.flags[i := true], frames := w.frames[i := f], owner := w.owner[i := |w.placed|],
       placed := w.placed + [f], seqNumber := w.seqNumber + 1)
  }

  /** Where ethernet_process_result stores a sector reply: a 32-bit difference. */
  function StoreIndex(w: Window, rx: seq<byte>): nat
    requires SectorReply(rx)
  {
    (NamedSector(rx) - w.start) % WORD
  }

  /** The reply, if it matches and carries a sector, stores inside the read buffer. */
  predicate StoresInside(w: Window, rx: seq<byte>)
    requires Shape(w)
  {
    FirstMatch(w, rx) < |w.flags| && w.protocol.Sectors? && SectorReply(rx) ==> StoreIndex(w, rx) < |w.data|
  }

  /** check_if_ack */
  function Reply(w: Window, rx: seq<byte>): Window
    requires Shape(w)
  {
    var i := FirstMatch(w, rx);
    if SeqNumber(w.protocol, rx) < 0 || i == |w.flags| then w
    else
      w.(flags := w.flags[i := false], matched := w.matched[w.owner[i] := rx],
         data := if w.protocol.Sectors? && SectorReply(rx) && StoreIndex(w, rx) < |w.data|
                 then w.data[StoreIndex(w, rx) := SectorBytes(rx)] else w.data)
  }

  // ----- the invariant

  predicate InSlot(w: Window, k: nat)
    requires Shape(w)
  {
    exists i :: 0 <= i < |w.flags| && w.flags[i] && w.owner[i] == k
  }

  /** The frame in an occupied slot is the placed frame the slot stands for, and no reply has freed it. */
  predicate SlotsLogged(w: Window)
    requires Shape(w)
  {
    forall i :: 0 <= i < |w.flags| && w.flags[i] ==>
      w.owner[i] < |w.placed| && w.owner[i] !in w.matched && w.frames[i] == w.placed[w.owner[i]]
  }

  /** No two outstanding frames are the same placed frame, nor duplicates under the installed test. */
  predicate NoDuplicates(w: Window)
    requires Shape(w)
  {
    forall i, j :: 0 <= i < |w.flags| && 0 <= j < |w.flags| && i != j && w.flags[i] && w.flags[j] ==>
      w.owner[i] != w.owner[j] && !Duplicate(w.protocol, w.frames[i].bytes[..w.frames[i].len], w.frames[j])
  }

  /** Every frame placed so far is outstanding in a slot or was freed by a reply that matches it. */
  predicate AllLogged(w: Window)
    requires Shape(w)
  {
    && (forall k: nat :: k < |w.placed| ==> k in w.matched || InSlot(w, k))
    && (forall k :: k in w.matched ==> k < |w.placed| && Match(w.protocol, w.matched[k], w.placed[k]))
  }

  predicate Inv(w: Window) {
    Shape(w) && SlotsLogged(w) && NoDuplicates(w) && AllLogged(w) && |w.matched| + Count(w.flags) == |w.placed|
  }

  lemma {:induction false} CountUpdate(flags: seq<bool>, i: nat, b: bool)
    requires i < |flags|
    ensures Count(flags[i := b]) == Count(flags) - (if flags[i] then 1 else 0) + (if b then 1 else 0)
  {
    var n := |flags| - 1;
    if i == n {
      assert flags[i := b][..n] == flags[..n];
    } else {
      CountUpdate(flags[..n], i, b);
      assert flags[i := b][..n] == flags[..n][i := b];
    }
  }

  lemma {:induction false} NoneCounted(flags: seq<bool>)
    ensures Count(flags) == 0 <==> forall i :: 0 <= i < |flags| ==> !flags[i]
  {
    if flags != [] {
      var before := flags[..|flags| - 1];
      NoneCounted(before);
      assert forall i :: 0 <= i < |before| ==> before[i] == flags[i];
    }
  }

  /** The sequence number is written outside the load address, so the duplicate test sees through it. */
  lemma EmbedKeepsAddress(protocol: Protocol, payload: seq<byte>, n: nat, f: Frame)
    ensures Duplicate(protocol, Embed(protocol, payload, n), f) <==> Duplicate(protocol, payload, f)
  {
  }

  lemma DuplicateIsSymmetric(protocol: Protocol, f: Frame, g: Frame)
    ensures Duplicate(protocol, f.bytes[..f.len], g) <==> Duplicate(protocol, g.bytes[..g.len], f)
  {
  }

  lemma PlaceKeepsLog(w: Window, payload: seq<byte>)
    requires Shape(w) && SlotsLogged(w) && AllLogged(w) && CanPlace(w, payload)
    ensures SlotsLogged(Place(w, payload)) && AllLogged(Place(w, payload))
  {
    hide Match, Duplicate, Embed;
    var i := FirstFree(w.flags);
    var w' := Place(w, payload);
    forall k: nat | k < |w'.placed| ensures k in w'.matched || InSlot(w', k) {
      if k == |w.placed| {
        assert w'.flags[i] && w'.owner[i] == k;
      } else if k !in w.matched {
        var j :| 0 <= j < |w.flags| && w.flags[j] && w.owner[j] == k;
        assert w'.flags[j] && w'.owner[j] == k;
      }
    }
  }

  lemma PlaceKeepsApart(w: Window, payload: seq<byte>)
    requires Shape(w) && SlotsLogged(w) && NoDuplicates(w) && CanPlace(w, payload)
    ensures NoDuplicates(Place(w, payload))
  {
    hide Match, Duplicate, Embed;
    var i := FirstFree(w.flags);
    var p := Embed(w.protocol, payload, w.seqNumber);
    var f := Overlay(w.frames[i], p);
    assert f.bytes[..f.len] == p;
    forall j | 0 <= j < |w.flags| && w.flags[j]
      ensures !Duplicate(w.protocol, f.bytes[..f.len], w.frames[j])
              && !Duplicate(w.protocol, w.frames[j].bytes[..w.frames[j].len], f)
    {
      EmbedKeepsAddress(w.protocol, payload, w.seqNumber, w.frames[j]);
      DuplicateIsSymmetric(w.protocol, f, w.frames[j]);
    }
  }

  lemma PlaceKeeps(w: Window, payload: seq<byte>)
    requires Inv(w) && CanPlace(w, payload)
    ensures Inv(Place(w, payload)) && Count(Place(w, payload).flags) == Count(w.flags) + 1
    ensures |Place(w, payload).flags| == |w.flags| && |Place(w, payload).placed| == |w.placed| + 1
  {
    hide SlotsLogged, NoDuplicates, AllLogged, HasDuplicate, Embed, Count;
    PlaceKeepsLog(w, payload);
    PlaceKeepsApart(w, payload);
    CountUpdate(w.flags, FirstFree(w.flags), true);
  }

  lemma ReplyKeepsLog(w: Window, rx: seq<byte>)
    requires Shape(w) && SlotsLogged(w) && NoDuplicates(w) && AllLogged(w)
    ensures var w' := Reply(w, rx); SlotsLogged(w') && NoDuplicates(w') && AllLogged(w')
  {
    hide Match, Duplicate, SectorReply, StoreIndex, SectorBytes, AllLogged, SeqNumber;
    ReplyKeepsAll(w, rx);
  }

  lemma ReplyKeepsAll(w: Window, rx: seq<byte>)
    requires Shape(w) && SlotsLogged(w) && AllLogged(w)
    ensures AllLogged(Reply(w, rx))
  {
    hide Match, SectorReply, StoreIndex, SectorBytes, SeqNumber;
    var w' := Reply(w, rx);
    if SeqNumber(w.protocol, rx) >= 0 && FirstMatch(w, rx) < |w.flags| {
      forall k: nat | k < |w'.placed| ensures k in w'.matched || InSlot(w', k) {
        if k !in w'.matched {
          var j :| 0 <= j < |w.flags| && w.flags[j] && w.owner[j] == k;
          assert w'.flags[j] && w'.owner[j] == k;
        }
      }
    }
  }

  /** A reply frees at most one slot: the first that matches. */
  lemma ReplyKeeps(w: Window, rx: seq<byte>)
    requires Inv(w)
    ensures Inv(Reply(w, rx)) && Reply(w, rx).placed == w.placed && |Reply(w, rx).flags| == |w.flags|
    ensures Reply(w, rx) != w <==> SeqNumber(w.protocol, rx) >= 0 && FirstMatch(w, rx) < |w.flags|
    ensures Count(Reply(w, rx).flags) == Count(w.flags) - (if Reply(w, rx) == w then 0 else 1)
    ensures forall i, j :: 0 <= i < |w.flags| && 0 <= j < |w.flags| && Reply(w, rx).flags[i] != w.flags[i] && Reply(w, rx).flags[j] != w.flags[j] ==> i == j
  {
    hide Match, NoDuplicates, AllLogged, Count, SectorReply, StoreIndex;
    ReplyKeepsLog(w, rx);
    var i := FirstMatch(w, rx);
    if SeqNumber(w.protocol, rx) >= 0 && i < |w.flags| {
      CountUpdate(w.flags, i, false);
      assert !Reply(w, rx).flags[i] && w.flags[i];
    }
  }

  /** Nothing is outstanding exactly when every frame placed so far has been matched. */
  lemma DrainedExactly(w: Window)
    requires Inv(w)
    ensures Count(w.flags) == 0 <==> forall k: nat :: k < |w.placed| ==> k in w.matched
  {
    NoneCounted(w.flags);
    if Count(w.flags) == 0 {
      forall k: nat | k < |w.placed| ensures k in w.matched {
        assert k in w.matched || InSlot(w, k);
      }
    }
  }

  // ----- runs

  datatype Event = Send(payload: seq<byte>) | Arrive(rx: seq<byte>)

  function Next(w: Window, e: Event): Window
    requires Shape(w) && (e.Send? ==> CanPlace(w, e.payload))
  {
    match e
    case Send(payload) => Place(w, payload)
    case Arrive(rx) => Reply(w, rx)
  }

  /** Frames are sent only when expect_ack lets them through; replies arrive lost, doubled and in any order. */
  predicate Possible(w: Window, events: seq<Event>)
    requires Shape(w)
    decreases |events|
  {
    events != [] ==> (events[0].Send? ==> CanPlace(w, events[0].payload)) && Possible(Next(w, events[0]), events[1..])
  }

  function Run(w: Window, events: seq<Event>): Window
    requires Shape(w) && Possible(w, events)
    decreases |events|
  {
    if events == [] then w else Run(Next(w, events[0]), events[1..])
  }

  function Sent(events: seq<Event>): nat {
    if events == [] then 0 else (if events[0].Send? then 1 else 0) + Sent(events[1..])
  }

  lemma {:induction false} RunKeeps(w: Window, events: seq<Event>)
    requires Inv(w) && Possible(w, events)
    ensures var w' := Run(w, events);
            Inv(w') && |w'.flags| == |w.flags| && Count(w'.flags) <= |w.flags| && |w'.placed| == |w.placed| + Sent(events)
    ensures var w' := Run(w, events);
            Count(w'.flags) == 0 <==> forall k: nat :: k < |w'.placed| ==> k in w'.matched
    decreases |events|
  {
    hide SlotsLogged, NoDuplicates, AllLogged, CanPlace, Count, Match, Duplicate, SectorReply;
    if events == [] {
      DrainedExactly(w);
    } else {
      match events[0] {
        case Send(payload) => PlaceKeeps(w, payload);
        case Arrive(rx) => ReplyKeeps(w, rx);
      }
      RunKeeps(Next(w, events[0]), events[1..]);
    }
  }

  /** With the memory loader a reply can match only one of the outstanding frames. */
  lemma LoadReplyIsUnique(w: Window, rx: seq<byte>, i: nat, j: nat)
    requires Inv(w) && w.protocol.DmaLoad? && SeqNumber(DmaLoad, rx) >= 0
    requires i < |w.flags| && j < |w.flags| && w.flags[i] && w.flags[j]
    requires Match(DmaLoad, rx, w.frames[i]) && Match(DmaLoad, rx, w.frames[j])
    ensures i == j
  {
    hide Count, AllLogged, SlotsLogged;
    var f, g := w.frames[i], w.frames[j];
    assert f.bytes[..1280] == g.bytes[..1280];
    assert forall k :: 0 <= k < 1280 ==> f.bytes[..1280][k] == g.bytes[..1280][k];
    assert Duplicate(DmaLoad, f.bytes[..f.len], g);
  }

  /** A write packet on the wire. */
  function WriteFrame(p: WB.Packet, seqNumber: nat): seq<byte> {
    Request() + [seqNumber % 0x100, seqNumber / 0x100 % 0x100, 0x02, p.batchId, p.last, p.slot] + PutLe32([0, 0, 0, 0], 0, p.start) + p.data
  }

  /** Within a write batch an acknowledgement names one packet. */
  lemma WriteReplyIsUnique(batch: seq<WB.Packet>, i: nat, j: nat, rx: seq<byte>, f: Frame, g: Frame, m: nat, n: nat)
    requires WB.IsBatch(batch) && i < |batch| && j < |batch|
    requires f.len == g.len == 526 && f.bytes[..526] == WriteFrame(batch[i], m) && g.bytes[..526] == WriteFrame(batch[j], n)
    requires |rx| > 6 && rx[6] == 0x02 && Match(Sectors, rx, f) && Match(Sectors, rx, g)
    ensures i == j
  {
    assert f.bytes[9] == f.bytes[..526][9] == batch[i].slot;
    assert g.bytes[9] == g.bytes[..526][9] == batch[j].slot;
    assert rx[7..14][2] == f.bytes[7..14][2] == g.bytes[7..14][2];
  }

  // ----- one read job

  /** The request for one sector of a read job; a resend of it asks for a batch of its own. */
  function ReadFrame(sector: nat): (p: seq<byte>)
    ensures |p| == 13
  {
    Request() + [0, 0, 0x04, 1, 0] + PutLe32([0, 0, 0, 0], 0, sector)
  }

  /** The frame asks for one sector: command 4, and the sector number in its last four bytes. */
  predicate IsReadFrame(f: Frame, sector: nat) {
    && f.len == 13 && f.bytes[..4] == [0x6d, 0x72, 0x65, 0x71] && f.bytes[6] == 0x04 && f.bytes[7] == 1 && f.bytes[8] == 0
    && LeValue(f.bytes[9..13]) == sector
  }

  /** Frames first, first + 1, ... are the requests of one read job, and only they may be outstanding. */
  predicate ReadJob(w: Window, first: nat, size: nat) {
    && w.protocol.Sectors? && size <= 255 && size <= |w.data| && w.start < WORD && |w.placed| == first + size
    && (forall k: nat :: k < first ==> k in w.matched)
    && (forall k: nat :: first <= k < |w.placed| ==> IsReadFrame(w.placed[k], (w.start + (k - first)) % WORD))
  }

  /** Slot k of the buffer holds the sector that freed request k, and is untouched otherwise. */
  predicate Assembled(w: Window, first: nat, size: nat, before: seq<Sector>) {
    && |w.data| == |before|
    && (forall k: nat :: k < |w.data| ==>
          w.data[k] == if k < size && first + k in w.matched && SectorReply(w.matched[first + k])
                       then SectorBytes(w.matched[first + k]) else before[k])
  }

  /** A sector reply that frees request k names sector start + k and stores into slot k: never outside the batch. */
  lemma ReplyInBatch(w: Window, first: nat, size: nat, rx: seq<byte>)
    requires Inv(w) && ReadJob(w, first, size)
    requires FirstMatch(w, rx) < |w.flags|
    ensures var k := w.owner[FirstMatch(w, rx)];
            first <= k < first + size
            && (SectorReply(rx) ==> NamedSector(rx) == (w.start + (k - first)) % WORD && StoreIndex(w, rx) == k - first)
  {
    hide Count, NoDuplicates, AllLogged, Le32;
    var i := FirstMatch(w, rx);
    var k := w.owner[i];
    assert first <= k;
    assert IsReadFrame(w.placed[k], (w.start + (k - first)) % WORD);
    if SectorReply(rx) {
      FieldIsNumber(rx, 9);
      assert NamedSector(rx) == (w.start + (k - first)) % WORD;
    }
  }

  /** What was matched stays, and what is newly matched was matched by something that arrived. */
  predicate MatchedBy(before: map<nat, seq<byte>>, after: map<nat, seq<byte>>, arrived: seq<seq<byte>>) {
    && (forall k :: k in before ==> k in after)
    && (forall k :: k in after ==> if k in before then after[k] == before[k] else after[k] in arrived)
  }

  lemma ReplyAssembles(w: Window, first: nat, size: nat, before: seq<Sector>, rx: seq<byte>)
    requires Inv(w) && ReadJob(w, first, size) && Assembled(w, first, size, before)
    ensures StoresInside(w, rx)
    ensures var w' := Reply(w, rx);
            Inv(w') && ReadJob(w', first, size) && Assembled(w', first, size, before) && w'.placed == w.placed && w'.start == w.start
    ensures MatchedBy(w.matched, Reply(w, rx).matched, [rx])
  {
    hide Count, NoDuplicates, Match, StoreIndex, NamedSector, SectorBytes, IsReadFrame, AllLogged;
    ReplyKeeps(w, rx);
    if FirstMatch(w, rx) < |w.flags| {
      ReplyInBatch(w, first, size, rx);
      assert w.owner[FirstMatch(w, rx)] !in w.matched;
    }
  }

  function Replies(w: Window, arrived: seq<seq<byte>>): (w': Window)
    requires Shape(w)
    ensures Shape(w')
    decreases |arrived|
  {
    if arrived == [] then w else Reply(Replies(w, arrived[..|arrived| - 1]), arrived[|arrived| - 1])
  }

  lemma {:induction false} RepliesAssemble(w: Window, first: nat, size: nat, arrived: seq<seq<byte>>)
    requires Inv(w) && ReadJob(w, first, size)
    requires forall k :: first <= k < first + size ==> k !in w.matched
    ensures var w' := Replies(w, arrived);
            Inv(w') && ReadJob(w', first, size) && Assembled(w', first, size, w.data) && w'.placed == w.placed && w'.start == w.start
    ensures MatchedBy(w.matched, Replies(w, arrived).matched, arrived)
    decreases |arrived|
  {
    hide SlotsLogged, NoDuplicates, AllLogged, Count, ReadJob, Reply;
    if arrived != [] {
      var last := |arrived| - 1;
      RepliesAssemble(w, first, size, arrived[..last]);
      ReplyAssembles(Replies(w, arrived[..last]), first, size, w.data, arrived[last]);
    }
  }

  /** No reply of another command is still under way. */
  predicate OnlySectorReplies(arrived: seq<seq<byte>>) {
    forall i :: 0 <= i < |arrived| && |arrived[i]| >= 7 && arrived[i][..4] == Response() ==> arrived[i][6] == 0x04
  }

  predicate Delivered(arrived: seq<seq<byte>>, sector: nat, data: Sector) {
    exists i :: 0 <= i < |arrived| && SectorReply(arrived[i]) && NamedSector(arrived[i]) == sector && data == SectorBytes(arrived[i])
  }

  lemma MatchNamesSector(rx: seq<byte>, f: Frame, sector: nat)
    requires SectorReply(rx) && Match(Sectors, rx, f) && IsReadFrame(f, sector)
    ensures NamedSector(rx) == sector
  {
    hide Le32;
    FieldIsNumber(rx, 9);
  }

  /**
   * The buffer after a read job: request k was freed by something that arrived, and
   * slot k holds that reply's bytes exactly when it is a sector reply, which then
   * names sector start + k; otherwise the slot is as before, like all slots past the batch.
   */
  predicate FilledBy(w: Window, first: nat, size: nat, before: seq<Sector>, arrived: seq<seq<byte>>) {
    && |w.data| == |before| && size <= |before|
    && (forall k: nat :: k < size ==> SlotFilled(w, first, k, before, arrived))
    && (forall k: nat :: size <= k < |w.data| ==> w.data[k] == before[k])
  }

  predicate SlotFilled(w: Window, first: nat, k: nat, before: seq<Sector>, arrived: seq<seq<byte>>) {
    && k < |w.data| == |before| && first + k in w.matched && w.matched[first + k] in arrived
    && (if SectorReply(w.matched[first + k])
        then NamedSector(w.matched[first + k]) == (w.start + k) % WORD && w.data[k] == SectorBytes(w.matched[first + k])
        else w.data[k] == before[k])
  }

  /** Whatever arrives, in whatever order and however often, once nothing of the read job is outstanding. */
  lemma ReadJobFills(w: Window, first: nat, size: nat, arrived: seq<seq<byte>>)
    requires Inv(w) && ReadJob(w, first, size)
    requires forall k :: first <= k < first + size ==> k !in w.matched
    requires Count(Replies(w, arrived).flags) == 0
    ensures FilledBy(Replies(w, arrived), first, size, w.data, arrived)
  {
    hide Count, NoDuplicates, SlotsLogged, AllLogged, Replies, IsReadFrame, SectorReply, NamedSector, SectorBytes, Match;
    RepliesAssemble(w, first, size, arrived);
    var w' := Replies(w, arrived);
    DrainedExactly(w');
    forall k: nat | k < size ensures SlotFilled(w', first, k, w.data, arrived) {
      assert first + k !in w.matched && first + k in w'.matched;
      FreedByName(w, w', first, size, arrived, k);
    }
  }

  lemma FreedByName(w: Window, w': Window, first: nat, size: nat, arrived: seq<seq<byte>>, k: nat)
    requires Shape(w') && AllLogged(w') && ReadJob(w', first, size) && w'.start == w.start
    requires MatchedBy(w.matched, w'.matched, arrived) && k < size && first + k in w'.matched && first + k !in w.matched
    ensures w'.matched[first + k] in arrived
    ensures SectorReply(w'.matched[first + k]) ==> NamedSector(w'.matched[first + k]) == (w.start + k) % WORD
  {
    hide Match, IsReadFrame, SectorReply, NamedSector, SectorBytes;
    var at := first + k;
    assert IsReadFrame(w'.placed[at], (w'.start + (at - first)) % WORD);
    if SectorReply(w'.matched[at]) {
      MatchNamesSector(w'.matched[at], w'.placed[at], (w.start + k) % WORD);
    }
  }

  lemma MatchIsSector(arrived: seq<seq<byte>>, rx: seq<byte>, f: Frame)
    requires rx in arrived && OnlySectorReplies(arrived) && Match(Sectors, rx, f)
    ensures SectorReply(rx)
  {
  }

  /**
   * If no reply of another command arrives, every slot of the batch is filled with
   * the bytes of a reply that names its sector.
   */
  lemma ReadJobDelivers(w: Window, first: nat, size: nat, arrived: seq<seq<byte>>)
    requires Inv(w) && ReadJob(w, first, size) && OnlySectorReplies(arrived)
    requires forall k :: first <= k < first + size ==> k !in w.matched
    requires Count(Replies(w, arrived).flags) == 0
    ensures var data := Replies(w, arrived).data;
            |data| == |w.data|
            && (forall k: nat :: k < size ==> Delivered(arrived, (w.start + k) % WORD, data[k]))
            && (forall k: nat :: size <= k < |data| ==> data[k] == w.data[k])
  {
    hide SlotsLogged, NoDuplicates, AllLogged, Count, Replies, SlotFilled, Delivered, OnlySectorReplies, ReadJob,
         Assembled, MatchedBy;
    ReadJobFills(w, first, size, arrived);
    RepliesAssemble(w, first, size, arrived);
    var w' := Replies(w, arrived);
    forall k: nat | k < size ensures Delivered(arrived, (w.start + k) % WORD, w'.data[k]) {
      SlotDelivered(w', first, size, k, w.data, arrived);
    }
  }

  lemma SlotDelivered(w: Window, first: nat, size: nat, k: nat, before: seq<Sector>, arrived: seq<seq<byte>>)
    requires Shape(w) && AllLogged(w) && ReadJob(w, first, size) && SlotFilled(w, first, k, before, arrived) && OnlySectorReplies(arrived)
    ensures Delivered(arrived, (w.start + k) % WORD, w.data[k])
  {
    hide Match, SectorReply, NamedSector, SectorBytes, IsReadFrame, OnlySectorReplies;
    var rx := w.matched[first + k];
    MatchIsSector(arrived, rx, w.placed[first + k]);
    var i :| 0 <= i < |arrived| && arrived[i] == rx;
  }

  // ----- what a reply that should match does

  /** A copy of a sector, as the remote program sends it; bytes 4, 5, 7 and 8 may be anything. */
  predicate IsCopyOf(rx: seq<byte>, sector: nat) {
    |rx| == 525 && rx[..4] == [0x6d, 0x72, 0x73, 0x70] && rx[6] == 0x04 && LeValue(rx[9..13]) == sector
  }

  lemma {:induction false} SameNumber(a: seq<byte>, b: seq<byte>)
    requires |a| == |b| && LeValue(a) == LeValue(b)
    ensures a == b
  {
    if a != [] {
      assert a[0] == LeValue(a) % 0x100 && b[0] == LeValue(b) % 0x100;
      SameNumber(a[1..], b[1..]);
      assert a == [a[0]] + a[1..] && b == [b[0]] + b[1..];
    }
  }

  /** A copy of the sector that a request asks for fits it. */
  lemma CopyFits(f: Frame, rx: seq<byte>, sector: nat)
    requires IsReadFrame(f, sector) && IsCopyOf(rx, sector)
    ensures SeqNumber(Sectors, rx) >= 0 && Match(Sectors, rx, f)
    ensures SectorReply(rx) && NamedSector(rx) == sector && SectorBytes(rx) == rx[13..]
  {
    hide LeValue, Le32;
    SameNumber(rx[9..13], f.bytes[9..13]);
    FieldIsNumber(rx, 9);
  }

  lemma SameSlot(start: nat, j: nat, k: nat)
    requires j < WORD && k < WORD && (start + j) % WORD == (start + k) % WORD
    ensures j == k
  {
  }

  /** A copy of sector start + k frees request k, if that is outstanding, and only that; its data goes to slot k. */
  lemma CopyFrees(w: Window, first: nat, size: nat, k: nat, rx: seq<byte>)
    requires Inv(w) && ReadJob(w, first, size) && k < size && IsCopyOf(rx, (w.start + k) % WORD)
    ensures first + k in Reply(w, rx).matched
    ensures first + k !in w.matched ==>
              Reply(w, rx).matched == w.matched[first + k := rx] && Reply(w, rx).data == w.data[k := rx[13..]]
  {
    hide Count, NoDuplicates, SlotsLogged, AllLogged, IsReadFrame, IsCopyOf, SectorReply, NamedSector, SectorBytes, StoreIndex, SeqNumber, Match;
    if first + k !in w.matched {
      CopyFindsRequest(w, first, size, k, rx);
      ReplyInBatch(w, first, size, rx);
    } else {
      ReplyGrows(w, rx);
    }
  }

  /** The slot of a request that has not been matched. */
  lemma RequestSlot(w: Window, first: nat, size: nat, k: nat) returns (i: nat)
    requires Inv(w) && ReadJob(w, first, size) && k < size && first + k !in w.matched
    ensures i < |w.flags| && w.flags[i] && w.owner[i] == first + k && IsReadFrame(w.frames[i], (w.start + k) % WORD)
  {
    hide Count, NoDuplicates, Match, IsReadFrame;
    assert InSlot(w, first + k);
    i :| 0 <= i < |w.flags| && w.flags[i] && w.owner[i] == first + k;
    assert IsReadFrame(w.placed[first + k], (w.start + (first + k - first)) % WORD);
  }

  lemma CopyFindsRequest(w: Window, first: nat, size: nat, k: nat, rx: seq<byte>)
    requires Inv(w) && ReadJob(w, first, size) && k < size && IsCopyOf(rx, (w.start + k) % WORD) && first + k !in w.matched
    ensures FirstMatch(w, rx) < |w.flags| && w.owner[FirstMatch(w, rx)] == first + k
    ensures SeqNumber(Sectors, rx) >= 0 && SectorReply(rx) && SectorBytes(rx) == rx[13..]
  {
    hide Count, NoDuplicates, AllLogged, SlotsLogged, Match, IsReadFrame, IsCopyOf, SectorReply, NamedSector, SectorBytes, StoreIndex, SeqNumber, LeValue;
    var i := RequestSlot(w, first, size, k);
    CopyFits(w.frames[i], rx, (w.start + k) % WORD);
    ReplyInBatch(w, first, size, rx);
    SameSlot(w.start, w.owner[FirstMatch(w, rx)] - first, k);
  }

  lemma ReplyGrows(w: Window, rx: seq<byte>)
    requires Inv(w)
    ensures forall k :: k in w.matched ==> k in Reply(w, rx).matched
    ensures Reply(w, rx).protocol == w.protocol && Reply(w, rx).start == w.start && Reply(w, rx).placed == w.placed
  {
  }

  /** A copy of sector start + k is among the arrivals. */
  predicate CopyArrived(arrived: seq<seq<byte>>, start: nat, k: nat) {
    exists i :: 0 <= i < |arrived| && IsCopyOf(arrived[i], (start + k) % WORD)
  }

  /** Whatever else arrives, before it or after. */
  lemma {:induction false} CopyMatched(w: Window, first: nat, size: nat, k: nat, arrived: seq<seq<byte>>)
    requires Inv(w) && ReadJob(w, first, size) && k < size && CopyArrived(arrived, w.start, k)
    requires forall j :: first <= j < first + size ==> j !in w.matched
    ensures first + k in Replies(w, arrived).matched
    decreases |arrived|
  {
    hide SlotsLogged, NoDuplicates, AllLogged, Count, ReadJob, Reply, IsCopyOf, Assembled, MatchedBy;
    var last := |arrived| - 1;
    var before := arrived[..last];
    RepliesAssemble(w, first, size, before);
    if IsCopyOf(arrived[last], (w.start + k) % WORD) {
      CopyFrees(Replies(w, before), first, size, k, arrived[last]);
    } else {
      var i :| 0 <= i < |arrived| && IsCopyOf(arrived[i], (w.start + k) % WORD);
      assert before[i] == arrived[i];
      CopyMatched(w, first, size, k, before);
      ReplyGrows(Replies(w, before), arrived[last]);
    }
  }

  /** Once a copy of every sector of the job has arrived, nothing is outstanding. */
  lemma CopiesDrain(w: Window, first: nat, size: nat, arrived: seq<seq<byte>>)
    requires Inv(w) && ReadJob(w, first, size)
    requires forall k :: first <= k < first + size ==> k !in w.matched
    requires forall k: nat :: k < size ==> CopyArrived(arrived, w.start, k)
    ensures Count(Replies(w, arrived).flags) == 0
  {
    hide Count, SlotsLogged, NoDuplicates, AllLogged, Replies, CopyArrived, Assembled, ReadJob;
    RepliesAssemble(w, first, size, arrived);
    var w' := Replies(w, arrived);
    forall j | first <= j < first + size ensures j in w'.matched {
      CopyMatched(w, first, size, j - first, arrived);
    }
    JobDone(w', first, size);
  }

  lemma JobDone(w: Window, first: nat, size: nat)
    requires Inv(w) && ReadJob(w, first, size) && forall j :: first <= j < first + size ==> j in w.matched
    ensures Count(w.flags) == 0
  {
    hide Count, SlotsLogged, NoDuplicates, AllLogged, IsReadFrame;
    DrainedExactly(w);
  }

  /** A write packet on its way: command 2, the fields of the packet and its sector. */
  predicate IsWriteFrame(f: Frame, p: WB.Packet) {
    && f.len == 526 && f.bytes[..4] == [0x6d, 0x72, 0x65, 0x71] && f.bytes[6] == 0x02
    && f.bytes[7] == p.batchId && f.bytes[8] == p.last && f.bytes[9] == p.slot
    && LeValue(f.bytes[10..14]) == p.start % WORD && f.bytes[14..526] == p.data
  }

  /** That is what a WriteFrame is once it has been placed. */
  lemma WriteFramePlaced(w: Window, p: WB.Packet)
    requires Inv(w) && w.protocol.Sectors? && CanPlace(w, WriteFrame(p, 0))
    ensures IsWriteFrame(Place(w, WriteFrame(p, 0)).placed[|w.placed|], p)
  {
    hide SlotsLogged, NoDuplicates, AllLogged, LeValue, Count, WriteFrame, Embed, Overlay, HasDuplicate;
    var payload := WriteFrame(p, 0);
    WriteFrameBytes(p);
    OnTheWire(w.frames[FirstFree(w.flags)], payload, w.seqNumber);
    var f := Place(w, payload).placed[|w.placed|];
    var rest := f.bytes[6..526];
    assert f.bytes[6] == rest[0] && f.bytes[7] == rest[1] && f.bytes[8] == rest[2] && f.bytes[9] == rest[3];
    assert payload[6..526] == payload[6..] && payload[14..526] == payload[14..];
    Part(f.bytes, 6, 526, 4, 8);
    Part(payload, 6, 526, 4, 8);
    Part(f.bytes, 6, 526, 8, 520);
    Part(payload, 6, 526, 8, 520);
  }

  lemma WriteFrameBytes(p: WB.Packet)
    ensures var b := WriteFrame(p, 0);
            && |b| == 526 && b[..4] == [0x6d, 0x72, 0x65, 0x71] && b[6] == 0x02 && b[7] == p.batchId && b[8] == p.last && b[9] == p.slot
            && LeValue(b[10..14]) == p.start % WORD && b[14..] == p.data
  {
    hide Le32, LeValue;
    PutThenGet([0, 0, 0, 0], 0, p.start);
    var field := PutLe32([0, 0, 0, 0], 0, p.start);
    FieldIsNumber(field, 0);
    var head := Request() + [0, 0, 0x02, p.batchId, p.last, p.slot];
    assert WriteFrame(p, 0) == head + field + p.data;
    assert (head + field + p.data)[10..14] == field == field[0..4];
    assert (head + field + p.data)[..4] == Request();
  }

  /** The acknowledgement of a packet: 14 bytes that repeat its fields. */
  predicate IsAckOf(rx: seq<byte>, p: WB.Packet) {
    && |rx| == 14 && rx[..4] == [0x6d, 0x72, 0x73, 0x70] && rx[6] == 0x02
    && rx[7] == p.batchId && rx[8] == p.last && rx[9] == p.slot && LeValue(rx[10..14]) == p.start % WORD
  }

  /** Frames first, first + 1, ... are the packets of one batch, and only they may be outstanding. */
  predicate WriteJob(w: Window, first: nat, batch: seq<WB.Packet>) {
    && w.protocol.Sectors? && WB.IsBatch(batch) && |w.placed| == first + |batch|
    && (forall k: nat :: k < first ==> k in w.matched)
    && (forall k: nat :: first <= k < |w.placed| ==> IsWriteFrame(w.placed[k], batch[k - first]))
  }

  /** The acknowledgement of packet k frees packet k, if that is outstanding, and only that. */
  lemma AckFrees(w: Window, first: nat, batch: seq<WB.Packet>, k: nat, rx: seq<byte>)
    requires Inv(w) && WriteJob(w, first, batch) && k < |batch| && IsAckOf(rx, batch[k])
    ensures first + k in Reply(w, rx).matched
    ensures first + k !in w.matched ==> Reply(w, rx).matched == w.matched[first + k := rx]
  {
    hide Count, NoDuplicates, SlotsLogged, AllLogged, IsWriteFrame, IsAckOf, Match, SeqNumber, WB.IsBatch;
    if first + k !in w.matched {
      var i := PacketSlot(w, first, batch, k);
      AckFits(w.frames[i], rx, batch[k]);
      var m := FirstMatch(w, rx);
      OutstandingPacket(w, first, batch, m);
      AckNames(w.frames[m], rx, batch, k, w.owner[m] - first);
    } else {
      ReplyGrows(w, rx);
    }
  }

  /** The slot of a packet that has not been matched. */
  lemma PacketSlot(w: Window, first: nat, batch: seq<WB.Packet>, k: nat) returns (i: nat)
    requires Inv(w) && WriteJob(w, first, batch) && k < |batch| && first + k !in w.matched
    ensures i < |w.flags| && w.flags[i] && w.owner[i] == first + k && IsWriteFrame(w.frames[i], batch[k])
  {
    hide Count, NoDuplicates, Match, IsWriteFrame, WB.IsBatch;
    assert InSlot(w, first + k);
    i :| 0 <= i < |w.flags| && w.flags[i] && w.owner[i] == first + k;
    assert IsWriteFrame(w.placed[first + k], batch[first + k - first]);
  }

  lemma OutstandingPacket(w: Window, first: nat, batch: seq<WB.Packet>, m: nat)
    requires Inv(w) && WriteJob(w, first, batch) && m < |w.flags| && w.flags[m]
    ensures first <= w.owner[m] < first + |batch| && IsWriteFrame(w.frames[m], batch[w.owner[m] - first])
  {
    hide Count, NoDuplicates, Match, IsWriteFrame, WB.IsBatch;
    var j := w.owner[m];
    assert j >= first;
    assert IsWriteFrame(w.placed[j], batch[j - first]);
  }

  lemma AckFits(f: Frame, rx: seq<byte>, p: WB.Packet)
    requires IsWriteFrame(f, p) && IsAckOf(rx, p)
    ensures SeqNumber(Sectors, rx) >= 0 && Match(Sectors, rx, f)
  {
    hide LeValue;
    SameNumber(rx[10..14], f.bytes[10..14]);
    SevenBytes(rx, f.bytes);
  }

  /** An acknowledgement fits no packet of the batch but its own. */
  lemma AckNames(f: Frame, rx: seq<byte>, batch: seq<WB.Packet>, k: nat, j: nat)
    requires WB.IsBatch(batch) && k < |batch| && j < |batch| && IsWriteFrame(f, batch[j]) && IsAckOf(rx, batch[k]) && Match(Sectors, rx, f)
    ensures j == k
  {
    hide LeValue;
    assert rx[7..14][2] == rx[9] && f.bytes[7..14][2] == f.bytes[9];
  }

  lemma SevenBytes(a: seq<byte>, b: seq<byte>)
    requires |a| >= 14 && |b| >= 14 && a[7] == b[7] && a[8] == b[8] && a[9] == b[9] && a[10..14] == b[10..14]
    ensures a[7..14] == b[7..14]
  {
    assert a[7..14] == [a[7], a[8], a[9]] + a[10..14];
    assert b[7..14] == [b[7], b[8], b[9]] + b[10..14];
  }

  predicate AckArrived(arrived: seq<seq<byte>>, p: WB.Packet) {
    exists i :: 0 <= i < |arrived| && IsAckOf(arrived[i], p)
  }

  lemma {:induction false} AckMatched(w: Window, first: nat, batch: seq<WB.Packet>, k: nat, arrived: seq<seq<byte>>)
    requires Inv(w) && WriteJob(w, first, batch) && k < |batch|
    ensures var w' := Replies(w, arrived); Inv(w') && WriteJob(w', first, batch)
    ensures AckArrived(arrived, batch[k]) ==> first + k in Replies(w, arrived).matched
    decreases |arrived|
  {
    hide SlotsLogged, NoDuplicates, AllLogged, Count, Reply, IsAckOf, IsWriteFrame, WB.IsBatch;
    if arrived != [] {
      var last := |arrived| - 1;
      var before := arrived[..last];
      AckMatched(w, first, batch, k, before);
      ReplyKeeps(Replies(w, before), arrived[last]);
      ReplyGrows(Replies(w, before), arrived[last]);
      if IsAckOf(arrived[last], batch[k]) {
        AckFrees(Replies(w, before), first, batch, k, arrived[last]);
      }
      assert forall i :: 0 <= i < last ==> before[i] == arrived[i];
    }
  }

  /** Once every packet of a batch has been acknowledged, nothing is outstanding. */
  lemma AcksDrain(w: Window, first: nat, batch: seq<WB.Packet>, arrived: seq<seq<byte>>)
    requires Inv(w) && WriteJob(w, first, batch)
    requires forall k: nat :: k < |batch| ==> AckArrived(arrived, batch[k])
    ensures Count(Replies(w, arrived).flags) == 0
  {
    hide Count, SlotsLogged, NoDuplicates, AllLogged, Replies, AckArrived, IsWriteFrame;
    AckMatched(w, first, batch, 0, arrived);
    DrainedExactly(Replies(w, arrived));
    forall j: nat | j < |Replies(w, arrived).placed| ensures j in Replies(w, arrived).matched {
      if j >= first {
        AckMatched(w, first, batch, j - first, arrived);
      }
    }
  }

  /** The reply carries a number and fits the frame. */
  predicate Accepts(protocol: Protocol, f: Frame, rx: seq<byte>) {
    SeqNumber(protocol, rx) >= 0 && Match(protocol, rx, f)
  }

  /**
   * The answers of the remote program to a frame of each command, with any number in
   * bytes 4 and 5 where the program does not compare it, and any data or result.
   */
  lemma AnswersFit(f: Frame, s: byte, t: byte, u: byte, v: byte, tail: seq<byte>)
    requires f.len >= 7 && f.bytes[..4] == [0x6d, 0x72, 0x65, 0x71]
    ensures var head := [0x6d, 0x72, 0x73, 0x70, s, t];
            && Accepts(Sectors, f, head + [0x02] + f.bytes[7..14])
            && (|tail| == 512 ==> Accepts(Sectors, f, head + [0x04, u, v] + f.bytes[9..13] + tail))
            && (|tail| > 0 ==> Accepts(Sectors, f, head + [0x11] + f.bytes[7..12] + tail))
            && ([s, t] == f.bytes[4..6] && |tail| == 1 ==> Accepts(Sectors, f, head + [0x12] + tail))
            && Accepts(Sectors, f, head + [0xfd]) && Accepts(Sectors, f, head + [0xff])
  {
    var head := [0x6d, 0x72, 0x73, 0x70, s, t];
    var rx := head + [0x02] + f.bytes[7..14];
    assert rx[..4] == Response() && rx[7..14] == f.bytes[7..14];
    var copy := head + [0x04, u, v] + f.bytes[9..13] + tail;
    assert copy[..4] == Response() && copy[9..13] == f.bytes[9..13];
    var memory := head + [0x11] + f.bytes[7..12] + tail;
    assert memory[..4] == Response() && memory[7..12] == f.bytes[7..12];
    var mount := head + [0x12] + tail;
    assert mount[..4] == Response() && mount[4..6] == [s, t];
    assert (head + [0xfd])[..4] == Response() && (head + [0xff])[..4] == Response();
  }

  /** The memory loader echoes a frame, number and all. */
  lemma EchoFits(f: Frame)
    requires f.len == 1280
    ensures Accepts(DmaLoad, f, f.bytes[..1280])
  {
  }

  /** The sequence number that is put into a payload is the one that is read from it, in 16 bits. */
  lemma NumberRoundTrip(protocol: Protocol, payload: seq<byte>, n: nat)
    requires if protocol.DmaLoad? then |payload| == 1280 else |payload| >= 7
    ensures SeqNumber(protocol, Embed(protocol, payload, n)) == n % 0x1_0000
  {
    assert n / 0x100 / 0x100 == n / 0x1_0000;
  }

  /** Two load frames are duplicates exactly when they load to the same address: megabyte, bank and the 16 bits below. */
  lemma DuplicateExactly(payload: seq<byte>, f: Frame)
    ensures Duplicate(DmaLoad, payload, f) <==>
              && |payload| == f.len == 1280 && payload[36] == f.bytes[36] && payload[46] as int % 0x10 == f.bytes[46] as int % 0x10
              && payload[44..46] == f.bytes[44..46]
    ensures !Duplicate(Sectors, payload, f)
  {
    hide LoadAddress;
    if |payload| == f.len == 1280 {
      AddressBytes(payload, f.bytes);
    }
  }

  lemma AddressBytes(a: seq<byte>, b: seq<byte>)
    requires |a| >= 47 && |b| >= 47
    ensures LoadAddress(a) == LoadAddress(b) <==>
            a[36] == b[36] && a[46] as int % 0x10 == b[46] as int % 0x10 && a[44..46] == b[44..46]
  {
    assert a[44..46] == [a[44], a[45]] && b[44..46] == [b[44], b[45]];
    FourDigits(a[36] as int, a[46] as int % 0x10, a[45] as int, a[44] as int, b[36] as int, b[46] as int % 0x10, b[45] as int, b[44] as int);
  }

  lemma FourDigits(m: nat, b: nat, h: nat, l: nat, m': nat, b': nat, h': nat, l': nat)
    requires b < 0x10 && h < 0x100 && l < 0x100 && b' < 0x10 && h' < 0x100 && l' < 0x100
    ensures m * 0x10_0000 + b * 0x1_0000 + h * 0x100 + l == m' * 0x10_0000 + b' * 0x1_0000 + h' * 0x100 + l' <==>
            m == m' && b == b' && h == h' && l == l'
  {
  }

  /** A leftover hello reply frees a read request without any data: its slot then is as before. */
  lemma HelloFreesReadRequest(w: Window, first: nat, size: nat)
    requires Inv(w) && ReadJob(w, first, size) && Count(w.flags) > 0
    ensures var w' := Reply(w, Response() + [0, 0, 0xfd]);
            Count(w'.flags) == Count(w.flags) - 1 && w'.data == w.data
  {
    hide NoDuplicates, AllLogged, Count;
    var rx := Response() + [0, 0, 0xfd];
    NoneCounted(w.flags);
    var i :| 0 <= i < |w.flags| && w.flags[i];
    var k := w.owner[i];
    assert k >= first;
    assert IsReadFrame(w.placed[k], (w.start + (k - first)) % WORD);
    assert rx[..4] == Response();
    assert Match(Sectors, rx, w.frames[i]);
    CountUpdate(w.flags, FirstMatch(w, rx), false);
  }

  /** Every sector reply of the arrivals that frees something stores inside the buffer. */
  predicate Safe(w: Window, arrived: seq<seq<byte>>)
    requires Shape(w)
    decreases |arrived|
  {
    arrived != [] ==>
      var last := |arrived| - 1;
      Safe(w, arrived[..last]) && StoresInside(Replies(w, arrived[..last]), arrived[last])
  }

  lemma {:induction false} ReadJobIsSafe(w: Window, first: nat, size: nat, arrived: seq<seq<byte>>)
    requires Inv(w) && ReadJob(w, first, size)
    requires forall k :: first <= k < first + size ==> k !in w.matched
    ensures Safe(w, arrived)
    decreases |arrived|
  {
    hide SlotsLogged, NoDuplicates, AllLogged, Count, ReadJob, Reply;
    if arrived != [] {
      var last := |arrived| - 1;
      ReadJobIsSafe(w, first, size, arrived[..last]);
      RepliesAssemble(w, first, size, arrived[..last]);
      ReplyAssembles(Replies(w, arrived[..last]), first, size, w.data, arrived[last]);
    }
  }

  /** Arrivals without sector data are safe whatever is outstanding. */
  lemma {:induction false} NoSectorDataIsSafe(w: Window, arrived: seq<seq<byte>>)
    requires Shape(w) && forall i :: 0 <= i < |arrived| ==> !SectorReply(arrived[i])
    ensures Safe(w, arrived)
    decreases |arrived|
  {
    if arrived != [] {
      NoSectorDataIsSafe(w, arrived[..|arrived| - 1]);
    }
  }

  lemma {:induction false} RepliesKeep(w: Window, arrived: seq<seq<byte>>)
    requires Inv(w)
    ensures Inv(Replies(w, arrived)) && Replies(w, arrived).placed == w.placed && |Replies(w, arrived).flags| == |w.flags|
    ensures Count(Replies(w, arrived).flags) <= Count(w.flags)
    decreases |arrived|
  {
    hide SlotsLogged, NoDuplicates, AllLogged, Count, Reply;
    if arrived != [] {
      RepliesKeep(w, arrived[..|arrived| - 1]);
      ReplyKeeps(Replies(w, arrived[..|arrived| - 1]), arrived[|arrived| - 1]);
    }
  }

  lemma {:induction false} RepliesConcat(w: Window, a: seq<seq<byte>>, b: seq<seq<byte>>)
    requires Shape(w)
    ensures Replies(w, a + b) == Replies(Replies(w, a), b)
    ensures Safe(w, a + b) ==> Safe(w, a) && Safe(Replies(w, a), b)
    decreases |b|
  {
    hide Reply, StoresInside;
    if b == [] {
      assert a + b == a;
    } else {
      assert (a + b)[..|a + b| - 1] == a + b[..|b| - 1];
      RepliesConcat(w, a, b[..|b| - 1]);
    }
  }

  lemma {:induction false} FreeWhenNotFull(flags: seq<bool>)
    requires Count(flags) < |flags|
    ensures FirstFree(flags) < |flags|
  {
    if FirstFree(flags) == |flags| {
      AllCounted(flags);
    }
  }

  lemma {:induction false} AllCounted(flags: seq<bool>)
    requires forall i :: 0 <= i < |flags| ==> flags[i]
    ensures Count(flags) == |flags|
  {
    if flags != [] {
      AllCounted(flags[..|flags| - 1]);
    }
  }

  lemma {:induction false} CountPrefix(flags: seq<bool>, n: nat)
    requires n <= |flags| && forall i :: n <= i < |flags| ==> !flags[i]
    ensures Count(flags[..n]) == Count(flags)
  {
    if n == |flags| {
      assert flags[..n] == flags;
    } else {
      CountPrefix(flags[..|flags| - 1], n);
      assert flags[..|flags| - 1][..n] == flags[..n];
    }
  }

  /** The first n slots of the window, as when the queue length is changed. */
  function WithSlots(w: Window, flags: seq<bool>, frames: seq<Frame>, owner: seq<nat>): Window {
    w.(flags := flags, frames := frames, owner := owner)
  }

  lemma ResizeKeeps(w: Window, w': Window)
    requires Inv(w) && Shape(w') && w' == WithSlots(w, w'.flags, w'.frames, w'.owner)
    requires forall i :: 0 <= i < |w.flags| && i < |w'.flags| ==> w'.flags[i] == w.flags[i] && w'.frames[i] == w.frames[i] && w'.owner[i] == w.owner[i]
    requires forall i :: |w'.flags| <= i < |w.flags| ==> !w.flags[i]
    requires forall i :: |w.flags| <= i < |w'.flags| ==> !w'.flags[i]
    ensures Inv(w')
  {
    hide Match, Duplicate, Count;
    if |w'.flags| <= |w.flags| {
      CountPrefix(w.flags, |w'.flags|);
      assert w.flags[..|w'.flags|] == w'.flags;
    } else {
      CountPrefix(w'.flags, |w.flags|);
      assert w'.flags[..|w.flags|] == w.flags;
    }
    forall k: nat | k < |w'.placed| ensures k in w'.matched || InSlot(w', k) {
      if k !in w.matched {
        var j :| 0 <= j < |w.flags| && w.flags[j] && w.owner[j] == k;
        assert w'.flags[j] && w'.owner[j] == k;
      }
    }
  }

  /** A ReadFrame that has been placed asks for its sector. */
  lemma ReadFramePlaced(w: Window, sector: nat)
    requires Inv(w) && w.protocol.Sectors? && CanPlace(w, ReadFrame(sector)) && sector < WORD
    ensures IsReadFrame(Place(w, ReadFrame(sector)).placed[|w.placed|], sector)
  {
    hide SlotsLogged, NoDuplicates, AllLogged, Le32, LeValue, Count, ReadFrame, Embed, Overlay, HasDuplicate;
    var p := ReadFrame(sector);
    ReadFrameBytes(sector);
    OnTheWire(w.frames[FirstFree(w.flags)], p, w.seqNumber);
    var f := Place(w, p).placed[|w.placed|];
    Part(f.bytes, 6, 13, 3, 7);
    Part(p, 6, 13, 3, 7);
    assert p[6..13] == p[6..];
    assert f.bytes[6] == f.bytes[6..13][0] && f.bytes[7] == f.bytes[6..13][1] && f.bytes[8] == f.bytes[6..13][2];
  }

  lemma Part(s: seq<byte>, a: nat, b: nat, c: nat, d: nat)
    requires c <= d && a + d <= b <= |s|
    ensures s[a..b][c..d] == s[a + c..a + d]
  {
    var inner := s[a..b];
    forall k | 0 <= k < d - c ensures inner[c..d][k] == s[a + c..a + d][k] {
      assert inner[c..d][k] == inner[c + k] == s[a + (c + k)];
    }
    assert inner[c..d] == s[a + c..a + d];
  }

  /** A sector number behind nine bytes. */
  lemma NumberBehind(head: seq<byte>, sector: nat)
    requires |head| == 9 && sector < WORD
    ensures var p := head + PutLe32([0, 0, 0, 0], 0, sector);
            |p| == 13 && p[..9] == head && p[..4] == head[..4] && LeValue(p[9..13]) == sector
  {
    hide LeValue, PutLe32;
    var field := PutLe32([0, 0, 0, 0], 0, sector);
    FieldOf(sector);
    assert (head + field)[9..13] == field;
  }

  lemma FieldOf(n: nat)
    ensures LeValue(PutLe32([0, 0, 0, 0], 0, n)) == n % WORD
  {
    hide Le32, LeValue;
    var field := PutLe32([0, 0, 0, 0], 0, n);
    PutThenGet([0, 0, 0, 0], 0, n);
    FieldIsNumber(field, 0);
    assert field[0..4] == field;
  }

  lemma ReadFrameBytes(sector: nat)
    requires sector < WORD
    ensures var p := ReadFrame(sector);
            |p| == 13 && p[..4] == [0x6d, 0x72, 0x65, 0x71] && p[6] == 0x04 && p[7] == 1 && p[8] == 0 && LeValue(p[9..13]) == sector
  {
    hide LeValue, PutLe32;
    var head := Request() + [0, 0, 0x04, 1, 0];
    NumberBehind(head, sector);
    var p := ReadFrame(sector);
    assert head[..4] == Request();
    assert p[6] == p[..9][6] && p[7] == p[..9][7] && p[8] == p[..9][8];
  }

  /** A placed frame is its payload, but for the sequence number. */
  lemma OnTheWire(was: Frame, payload: seq<byte>, n: nat)
    requires 7 <= |payload| <= SLOT_BYTES
    ensures var f := Overlay(was, Embed(Sectors, payload, n));
            f.len == |payload| && f.bytes[..4] == payload[..4] && f.bytes[6..|payload|] == payload[6..]
  {
  }

  /** Scheduling one more request of a read job. */
  lemma PlaceRead(w: Window, first: nat, i: nat)
    requires Inv(w) && ReadJob(w, first, i) && i < 255 && i < |w.data| && CanPlace(w, ReadFrame((w.start + i) % WORD))
    ensures ReadJob(Place(w, ReadFrame((w.start + i) % WORD)), first, i + 1)
  {
    hide Match, Count, SlotsLogged, NoDuplicates, AllLogged, ReadFrame, IsReadFrame, Embed, Overlay, CanPlace;
    var sector := (w.start + i) % WORD;
    ReadFramePlaced(w, sector);
    var w' := Place(w, ReadFrame(sector));
    forall k: nat | first <= k < |w'.placed| ensures IsReadFrame(w'.placed[k], (w.start + (k - first)) % WORD) {
      if k < |w.placed| {
        assert IsReadFrame(w.placed[k], (w.start + (k - first)) % WORD);
      }
    }
  }
}
