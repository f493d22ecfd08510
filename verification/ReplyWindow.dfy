/**
 * The slot arrays and polling loops of etherload_common.c, and the read job of
 * mega65_ftp.c on top of them, proved against the state machine of ReplyMatching.
 * The network and the clock are parameters: a list of rounds, one per turn of a
 * polling loop, each with a clock reading and the packets that are waiting.
 */
module ReplyWindow {
  import opened Bytes
  import opened ReplyMatching
  import opened ReplyTimers

  const MAX_UNACKED_FRAMES: nat := 256
  const READ_SECTORS: nat := 2048

  /** How a polling loop ends; Waiting when it still turns after the rounds that are given. */
  datatype Outcome = Done | TimedOut | GaveUp | Waiting

  class AckWindow {
    const protocol: Protocol
    const hasTimeoutHandler: bool
    const frameUnacked: array<bool>
    const frames: array<Frame>
    const sentTimes: array<int>
    const readData: array<Sector>
    var queueLength: nat
    var packetSeq: nat
    var retxInterval: int
    var retxCount: int
    var lastResend: int
    var lastRx: int
    var lastRxInterval: int
    var batchStart: nat
    var outbox: seq<seq<byte>>
    ghost var owner: seq<nat>
    ghost var placed: seq<Frame>
    ghost var placedAt: seq<nat>
    ghost var matched: map<nat, seq<byte>>

    ghost predicate Sized()
      reads this`queueLength, this`owner, this`placed, this`placedAt
    {
      && frameUnacked.Length == frames.Length == sentTimes.Length == |owner| == MAX_UNACKED_FRAMES
      && readData.Length == READ_SECTORS && queueLength <= MAX_UNACKED_FRAMES && |placedAt| == |placed|
    }

    ghost function State(): Window
      reads this`queueLength, this`owner, this`placed, this`placedAt, this`matched, this`packetSeq, this`batchStart, frameUnacked, frames, readData
      requires Sized()
      ensures Shape(State()) && State().protocol == protocol && |State().flags| == queueLength
    {
      Window(protocol, frameUnacked[..queueLength], frames[..queueLength], owner[..queueLength], placed, matched,
             packetSeq, batchStart, readData[..])
    }

    /** Slots past the queue length are free, and sent times are those of the frames. */
    ghost predicate Timed()
      reads this`queueLength, this`owner, this`placed, this`placedAt, frameUnacked, sentTimes
      requires Sized()
    {
      forall i :: 0 <= i < MAX_UNACKED_FRAMES && frameUnacked[i] ==>
        i < queueLength && owner[i] < |placedAt| && sentTimes[i] == placedAt[owner[i]]
    }

    ghost predicate Valid()
      reads this`queueLength, this`owner, this`placed, this`placedAt, this`matched, this`packetSeq, this`batchStart
      reads frameUnacked, frames, sentTimes, readData
    {
      Sized() && Timed() && Inv(State())
    }

    constructor (p: Protocol, handler: bool)
      ensures Valid() && fresh(frameUnacked) && fresh(frames) && fresh(sentTimes) && fresh(readData)
      ensures protocol == p && hasTimeoutHandler == handler && queueLength == 4 && packetSeq == 0 && placed == [] && outbox == []
      ensures Clock() == Timers(1000, 0, 0, -1, 0)
    {
      protocol, hasTimeoutHandler := p, handler;
      frameUnacked := new bool[MAX_UNACKED_FRAMES](_ => false);
      frames := new Frame[MAX_UNACKED_FRAMES](_ => Frame(seq(1500, _ => 0), 0));
      sentTimes := new int[MAX_UNACKED_FRAMES](_ => 0);
      readData := new Sector[READ_SECTORS](_ => ZeroSector());
      queueLength, packetSeq, retxInterval, retxCount, lastResend, lastRx, lastRxInterval := 4, 0, 1000, 0, 0, -1, 0;
      batchStart, outbox := 0, [];
      owner, placed, placedAt, matched := seq(MAX_UNACKED_FRAMES, _ => 0), [], [], map[];
      new;
      NoneCounted(State().flags);
    }

    /** The times that the polling loops go by. */
    ghost function Clock(): Timers
      reads this`retxInterval, this`retxCount, this`lastResend, this`lastRx, this`lastRxInterval
    {
      Timers(retxInterval, retxCount, lastResend, lastRx, lastRxInterval)
    }

    method UpdateRetxInterval()
      modifies this`retxInterval
      ensures retxInterval == Interval(retxCount, lastRxInterval)
    {
      retxInterval := 2000 + retxCount * lastRxInterval;
      if retxInterval < 50000 {
        retxInterval := 50000;
      }
      if retxInterval > 1000000 {
        retxInterval := 1000000;
      }
    }

    /** get_num_unacked_frames */
    method CountUnacked() returns (n: nat)
      requires Sized()
      ensures n == Count(State().flags)
    {
      n := 0;
      var i := 0;
      while i < queueLength
        invariant i <= queueLength && n == Count(frameUnacked[..i])
      {
        assert frameUnacked[..i + 1][..i] == frameUnacked[..i];
        if frameUnacked[i] {
          n := n + 1;
        }
        i := i + 1;
      }
    }

    /** The receive times and the interval that check_if_ack keeps of every numbered packet. */
    method NoteArrival(now: nat)
      modifies this`retxInterval, this`retxCount, this`lastRx, this`lastRxInterval
      ensures Clock() == Heard(old(Clock()), now)
    {
      lastRxInterval := if lastRx == -1 then 0 else now - lastRx;
      lastRx := now;
      retxCount := 0;
      UpdateRetxInterval();
    }

    /** check_if_ack together with what the match callback stores. */
    method CheckIfAck(rx: seq<byte>, now: nat) returns (freed: bool)
      requires Valid() && StoresInside(State(), rx)
      modifies this`retxInterval, this`retxCount, this`lastResend, this`lastRx, this`lastRxInterval, this`matched, frameUnacked, readData
      ensures Valid() && State() == Reply(old(State()), rx) && freed == (State() != old(State()))
      ensures Clock() == HeardOne(old(State()), old(Clock()), rx, now)
    {
      hide Match, Duplicate, Inv, Timed, Reply, Count, StoreIndex, State, StoresInside;
      ReplyKeeps(State(), rx);
      var seqNumber := GetPacketSeq(rx);
      if seqNumber < 0 {
        return false;
      }
      NoteArrival(now);
      var i := FindMatch(rx);
      if i == queueLength {
        return false;
      }
      FreeSlot(i, rx);
      lastResend := now;
      return true;
    }

    /** What a match does: it stores a sector reply and frees the slot. */
    method FreeSlot(i: nat, rx: seq<byte>)
      requires Valid() && StoresInside(State(), rx) && SeqNumber(protocol, rx) >= 0
      requires i == FirstMatch(State(), rx) < queueLength
      modifies this`matched, frameUnacked, readData
      ensures Valid() && State() == Reply(old(State()), rx)
    {
      hide Match, Duplicate, Inv, Count, NamedSector, SectorBytes;
      ghost var w := State();
      ReplyKeeps(w, rx);
      ghost var w' := Reply(w, rx);
      if protocol.Sectors? && SectorReply(rx) {
        var at := (NamedSector(rx) - batchStart) % WORD;
        readData[at] := SectorBytes(rx);
        assert readData[..] == w'.data;
      }
      frameUnacked[i] := false;
      matched := matched[owner[i] := rx];
      assert frameUnacked[..queueLength] == w'.flags;
    }

    /** The get_packet_seq callbacks. */
    method GetPacketSeq(rx: seq<byte>) returns (seqNumber: int)
      ensures seqNumber == SeqNumber(protocol, rx)
    {
      if protocol.DmaLoad? {
        if |rx| != 1280 {
          return -1;
        }
        return rx[190] as int + rx[191] as int * 0x100;
      }
      if |rx| < 6 {
        return -1;
      }
      seqNumber := rx[4] as int + rx[5] as int * 0x100;
    }

    /** The match_payloads callbacks, without what a match stores. */
    method MatchPayloads(rx: seq<byte>, tx: Frame) returns (matches: bool)
      ensures matches == Match(protocol, rx, tx)
    {
      if protocol.DmaLoad? {
        return |rx| == tx.len && rx == tx.bytes[..tx.len];
      }
      if |rx| < 7 || tx.len < 7 || rx[..4] != [0x6d, 0x72, 0x73, 0x70] || tx.bytes[..4] != [0x6d, 0x72, 0x65, 0x71] {
        return false;
      }
      if rx[6] == 0x02 {
        matches := |rx| == 14 && rx[7..14] == tx.bytes[7..14];
      } else if rx[6] == 0x04 {
        matches := |rx| == 525 && rx[9..13] == tx.bytes[9..13];
      } else if rx[6] == 0x11 {
        matches := |rx| >= 13 && rx[7..12] == tx.bytes[7..12];
      } else if rx[6] == 0x12 {
        matches := |rx| == 8 && rx[4..6] == tx.bytes[4..6];
      } else if rx[6] == 0xfd || rx[6] == 0xff {
        matches := |rx| == 7;
      } else {
        matches := false;
      }
    }

    /** The is_duplicate callbacks. */
    method IsDuplicate(payload: seq<byte>, other: Frame) returns (duplicate: bool)
      ensures duplicate == Duplicate(protocol, payload, other)
    {
      if protocol.Sectors? || |payload| != 1280 || other.len != 1280 {
        return false;
      }
      DuplicateExactly(payload, other);
      duplicate := payload[36] == other.bytes[36] && payload[46] as int % 0x10 == other.bytes[46] as int % 0x10
                   && payload[45] == other.bytes[45] && payload[44] == other.bytes[44];
      assert payload[44..46] == [payload[44], payload[45]] && other.bytes[44..46] == [other.bytes[44], other.bytes[45]];
    }

    /** The slot loop of check_if_ack. */
    method FindMatch(rx: seq<byte>) returns (i: nat)
      requires Sized()
      ensures i == FirstMatch(State(), rx)
    {
      hide Match;
      ghost var w := State();
      i := 0;
      while i < queueLength
        invariant i <= queueLength
        invariant FirstMatch(w, rx) == FirstMatch(w, rx, i)
      {
        if frameUnacked[i] {
          var matches := MatchPayloads(rx, frames[i]);
          if matches {
            break;
          }
        }
        i := i + 1;
      }
    }

    /** The search of maybe_send_ack for the earliest sent time; -1 stands for none. */
    method FindOldest() returns (id: nat, oldestSentTime: int, ghost k: nat)
      requires Valid()
      ensures oldestSentTime == -1 <==> Count(State().flags) == 0
      ensures oldestSentTime != -1 ==> id < queueLength && IsOldest(State(), placedAt, k) && oldestSentTime == placedAt[k]
      ensures oldestSentTime != -1 ==> IsOldFrame(State(), placedAt, frames[id].bytes[..frames[id].len])
    {
      hide Match, Duplicate, Count, NoDuplicates;
      ghost var w := State();
      NoneCounted(w.flags);
      id, oldestSentTime, k := 0, -1, 0;
      var i := 0;
      while i < queueLength
        invariant i <= queueLength
        invariant oldestSentTime == -1 ==> forall j :: 0 <= j < i ==> !frameUnacked[j]
        invariant oldestSentTime != -1 ==> id < i && frameUnacked[id] && sentTimes[id] == oldestSentTime
        invariant oldestSentTime != -1 ==> forall j :: 0 <= j < i && frameUnacked[j] ==> oldestSentTime <= sentTimes[j]
      {
        if frameUnacked[i] {
          if oldestSentTime == -1 || sentTimes[i] < oldestSentTime {
            oldestSentTime := sentTimes[i];
            id := i;
          }
        }
        i := i + 1;
      }
      if oldestSentTime != -1 {
        assert w.flags[id];
        k := owner[id];
        forall j: nat | j < |placed| && j !in matched ensures placedAt[k] <= placedAt[j] {
          assert InSlot(w, j);
          var s :| 0 <= s < |w.flags| && w.flags[s] && w.owner[s] == j;
          assert frameUnacked[s];
        }
      }
    }

    /** maybe_send_ack: after a quiet interval an oldest outstanding frame is sent once more, or the timeout handler ends the program. */
    method MaybeSendAck(now: nat) returns (gaveUp: bool)
      requires Valid()
      modifies this`retxInterval, this`retxCount, this`lastResend, this`outbox
      ensures Valid() && State() == old(State())
      ensures gaveUp <==> GivesUp(State(), placedAt, old(Clock()), hasTimeoutHandler, now)
      ensures gaveUp || !Due(State(), old(Clock()), now) ==> outbox == old(outbox) && Clock() == old(Clock())
      ensures !gaveUp && Due(State(), old(Clock()), now) ==>
                && Clock() == Resent(old(Clock()), now)
                && |outbox| == |old(outbox)| + 1 && outbox[..|old(outbox)|] == old(outbox) && IsOldFrame(State(), placedAt, outbox[|old(outbox)|])
    {
      hide Match, Duplicate, Count, Inv, State;
      gaveUp := false;
      var id, oldestSentTime;
      ghost var k;
      id, oldestSentTime, k := FindOldest();
      if oldestSentTime != -1 {
        if now - lastResend > retxInterval {
          OldestAge(State(), placedAt, k, now);
          if hasTimeoutHandler && now - oldestSentTime > ACK_TIMEOUT {
            if lastRx != -1 && now - lastRx > ACK_TIMEOUT {
              return true;
            }
          }
          retxCount := retxCount + 1;
          UpdateRetxInterval();
          outbox := outbox + [frames[id].bytes[..frames[id].len]];
          lastResend := now;
        }
      }
    }

    /** The receive loop of a polling turn: everything that waits is taken. */
    method Receive(packets: seq<seq<byte>>, now: nat)
      requires Valid() && Safe(State(), packets)
      modifies this`retxInterval, this`retxCount, this`lastResend, this`lastRx, this`lastRxInterval, this`matched, frameUnacked, readData
      ensures Valid() && State() == Replies(old(State()), packets) && Clock() == HeardAll(old(State()), old(Clock()), packets, now)
    {
      hide Inv, Timed, Reply, StoresInside, State, HeardOne, Clock;
      ghost var w, t := State(), Clock();
      var i := 0;
      while i < |packets|
        invariant i <= |packets| && Valid() && State() == Replies(w, packets[..i]) && Clock() == HeardAll(w, t, packets[..i], now)
      {
        assert packets[..i + 1][..i] == packets[..i];
        RepliesConcat(w, packets[..i + 1], packets[i + 1..]);
        assert packets[..i + 1] + packets[i + 1..] == packets;
        var _ := CheckIfAck(packets[i], now);
        i := i + 1;
      }
      assert packets[..i] == packets;
    }

    /** One turn of a polling loop: the packets are taken, and a frame is sent again if that is due. */
    method Turn(rounds: seq<Round>, i: nat, ghost w: Window, ghost t: Timers, ghost sent: seq<seq<byte>>) returns (gaveUp: bool, ghost sent': seq<seq<byte>>)
      requires Valid() && i < |rounds| && Shape(w) && Safe(w, Arrived(rounds))
      requires Polled(w, placedAt, t, hasTimeoutHandler, rounds[..i], State(), Clock(), sent)
      modifies this`retxInterval, this`retxCount, this`lastResend, this`lastRx, this`lastRxInterval, this`matched, this`outbox, frameUnacked, readData
      ensures Valid() && State() == Replies(w, Arrived(rounds[..i + 1])) && outbox == old(outbox) + sent'
      ensures gaveUp <==> GivesUpIn(w, placedAt, t, hasTimeoutHandler, rounds, i)
      ensures gaveUp ==> sent' == []
      ensures !gaveUp ==> Polled(w, placedAt, t, hasTimeoutHandler, rounds[..i + 1], State(), Clock(), sent + sent')
    {
      hide Inv, Timed, Reply, State, Count, Safe, Replies, Clock, HeardAll, Due, GivesUp, IsOldFrame, Resent, GivesUpIn, Polled;
      ghost var w0, t0, out := State(), Clock(), outbox;
      PolledState(w, placedAt, t, hasTimeoutHandler, rounds[..i], w0, t0, sent);
      SafeTurn(w, rounds, i);
      Receive(rounds[i].packets, rounds[i].now);
      ghost var w1, t1 := State(), Clock();
      gaveUp := MaybeSendAck(rounds[i].now);
      sent' := outbox[|out|..];
      assert outbox == out + sent' && (sent + sent')[..|sent|] == sent;
      PolledMore(w, placedAt, t, hasTimeoutHandler, rounds, i, w0, t0, sent, w1, t1, Clock(), sent + sent');
      assert sent' == [] ==> sent + sent' == sent;
    }

    /**
     * wait_ack_slots_available over the given rounds.  It ends in the first round that
     * finds the time over (TimedOut) or the slots free (Done), or after the first one
     * whose silence makes the timeout handler end the program; used rounds have been
     * taken from the network, and sent is what they have sent again.
     */
    method WaitAckSlots(needed: nat, start: nat, timeout: nat, rounds: seq<Round>) returns (outcome: Outcome, ghost used: nat, ghost sent: seq<seq<byte>>)
      requires Valid() && Safe(State(), Arrived(rounds))
      modifies this`retxInterval, this`retxCount, this`lastResend, this`lastRx, this`lastRxInterval, this`matched, this`outbox, frameUnacked, readData
      ensures Valid() && used <= |rounds| && State() == Replies(old(State()), Arrived(rounds[..used])) && outbox == old(outbox) + sent
      ensures MustWait(old(State()), rounds, used, start, timeout, needed)
      ensures outcome == Done ==>
                used < |rounds| && InTime(rounds, used, start, timeout) && Count(State().flags) + needed <= queueLength
      ensures outcome == TimedOut ==> used < |rounds| && !InTime(rounds, used, start, timeout)
      ensures outcome == Waiting ==> used == |rounds|
      ensures outcome == GaveUp ==>
                && used > 0 && GivesUpIn(old(State()), placedAt, old(Clock()), hasTimeoutHandler, rounds, used - 1)
                && SentAgain(old(State()), placedAt, old(Clock()), rounds[..used - 1], sent)
      ensures outcome != GaveUp ==>
                Polled(old(State()), placedAt, old(Clock()), hasTimeoutHandler, rounds[..used], State(), Clock(), sent)
    {
      hide Inv, Timed, Reply, State, Count, Safe, Replies, Clock, HeardAll, Polled, GivesUpIn, SentAgain, MustWait, Arrived;
      ghost var w, t := State(), Clock();
      used, sent := 0, [];
      var i := 0;
      NothingWaited(w, rounds, start, timeout, needed);
      PolledNothing(w, placedAt, t, hasTimeoutHandler, rounds);
      PolledState(w, placedAt, t, hasTimeoutHandler, rounds[..0], w, t, sent);
      while i < |rounds|
        invariant used == i <= |rounds| && Valid() && State() == Replies(w, Arrived(rounds[..i])) && outbox == old(outbox) + sent
        invariant Polled(w, placedAt, t, hasTimeoutHandler, rounds[..i], State(), Clock(), sent)
        invariant MustWait(w, rounds, i, start, timeout, needed)
      {
        if rounds[i].now - start >= timeout * 1000 {
          return TimedOut, i, sent;
        }
        var unacked := CountUnacked();
        if queueLength - unacked >= needed {
          return Done, i, sent;
        }
        MustWaitOn(w, rounds, i, start, timeout, needed);
        PolledState(w, placedAt, t, hasTimeoutHandler, rounds[..i], State(), Clock(), sent);
        ghost var more;
        var gaveUp;
        gaveUp, more := Turn(rounds, i, w, t, sent);
        i := i + 1;
        used := i;
        if gaveUp {
          return GaveUp, i, sent;
        }
        sent := sent + more;
      }
      outcome := Waiting;
    }

    /**
     * ethl_set_queue_length only warns when frames are outstanding.  The window
     * survives exactly when no outstanding frame sits past the new length.
     */
    method SetQueueLength(length: nat) returns (failed: bool)
      requires Valid()
      modifies this`queueLength
      ensures failed <==> length > MAX_UNACKED_FRAMES
      ensures failed ==> Valid() && queueLength == old(queueLength)
      ensures !failed ==> queueLength == length
      ensures !failed ==> (Valid() <==> forall i :: length <= i < old(queueLength) ==> !frameUnacked[i])
    {
      hide Match, Duplicate, Inv;
      if length > MAX_UNACKED_FRAMES {
        return true;
      }
      ghost var w := State();
      queueLength := length;
      if forall i :: length <= i < |w.flags| ==> !w.flags[i] {
        ResizeKeeps(w, State());
      }
      failed := false;
    }

    /** The search of expect_ack. */
    method FindPlace(payload: seq<byte>) returns (freeSlot: int, duplicate: int)
      requires Sized()
      ensures duplicate == -1 <==> !HasDuplicate(State(), payload)
      ensures duplicate == -1 ==> freeSlot == if FirstFree(State().flags) < queueLength then FirstFree(State().flags) else -1
      ensures |payload| <= SLOT_BYTES ==> (CanPlace(State(), payload) <==> freeSlot != -1 && duplicate == -1)
    {
      hide Duplicate;
      ghost var w := State();
      duplicate, freeSlot := -1, -1;
      var i := 0;
      while i < queueLength
        invariant i <= queueLength && duplicate == -1
        invariant forall k :: 0 <= k < i ==> !(w.flags[k] && Duplicate(protocol, payload, w.frames[k]))
        invariant -1 <= freeSlot < i
        invariant if freeSlot == -1 then forall k :: 0 <= k < i ==> w.flags[k] else !w.flags[freeSlot] && forall k :: 0 <= k < freeSlot ==> w.flags[k]
      {
        if frameUnacked[i] {
          var same := IsDuplicate(payload, frames[i]);
          if same {
            duplicate := i;
            assert w.flags[i];
            break;
          }
        }
        if !frameUnacked[i] && freeSlot == -1 {
          freeSlot := i;
        }
        i := i + 1;
      }
    }

    /** The times of a placed frame. */
    method Stamp(now: nat)
      modifies this`retxInterval, this`lastResend
      ensures Clock() == Scheduled(old(Clock()), now)
    {
      UpdateRetxInterval();
      lastResend := now;
    }

    /** The placing branch of expect_ack. */
    method PlaceFrame(slot: nat, payload: seq<byte>, now: nat)
      requires Valid() && CanPlace(State(), payload) && slot == FirstFree(State().flags)
      modifies this`retxInterval, this`lastResend, this`packetSeq, this`owner, this`placed, this`placedAt, frameUnacked, frames, sentTimes
      ensures Valid() && State() == Place(old(State()), payload) && placedAt == old(placedAt) + [now]
      ensures Clock() == Scheduled(old(Clock()), now)
    {
      hide Match, Duplicate, Inv, Count, Embed, HasDuplicate, Clock, Scheduled, Timed, Overlay;
      PlaceKeeps(State(), payload);
      var f := Overlay(frames[slot], Embed(protocol, payload, packetSeq));
      packetSeq := packetSeq + 1;
      Stamp(now);
      FillSlot(slot, f, now);
    }

    /** The frame is copied into a free slot. */
    method FillSlot(slot: nat, f: Frame, now: nat)
      requires Sized() && Timed() && slot < queueLength && !frameUnacked[slot]
      modifies this`owner, this`placed, this`placedAt, frameUnacked, frames, sentTimes
      ensures Sized() && Timed() && placedAt == old(placedAt) + [now]
      ensures var w := old(State());
              State() == w.(flags := w.flags[slot := true], frames := w.frames[slot := f], owner := w.owner[slot := |w.placed|], placed := w.placed + [f])
    {
      ghost var w := State();
      frames[slot] := f;
      sentTimes[slot] := now;
      frameUnacked[slot] := true;
      owner := owner[slot := |placed|];
      placed, placedAt := placed + [f], placedAt + [now];
      assert frames[..queueLength] == w.frames[slot := f] && frameUnacked[..queueLength] == w.flags[slot := true];
      assert owner[..queueLength] == w.owner[slot := |w.placed|];
    }

    /**
     * expect_ack over the given rounds: the frame is placed once a slot is free and
     * no outstanding frame duplicates it.  The time of a placement before the first
     * round is start.  It gives up as a wait does, and after a round that finds the
     * time over.
     */
    method ExpectAck(payload: seq<byte>, start: nat, timeout: nat, rounds: seq<Round>) returns (outcome: Outcome, ghost used: nat, ghost sent: seq<seq<byte>>)
      requires Valid() && Safe(State(), Arrived(rounds)) && |payload| <= SLOT_BYTES
      modifies this`retxInterval, this`retxCount, this`lastResend, this`lastRx, this`lastRxInterval, this`packetSeq, this`outbox
      modifies this`owner, this`placed, this`placedAt, this`matched, frameUnacked, frames, sentTimes, readData
      ensures Valid() && used <= |rounds| && outbox == old(outbox) + sent
      ensures outcome == Done ==>
                PlacedAfter(old(State()), old(placedAt), old(Clock()), rounds[..used], start, payload, State(), placedAt, Clock(), sent)
      ensures outcome != Done ==> State() == Replies(old(State()), Arrived(rounds[..used])) && placedAt == old(placedAt)
      ensures outcome != Done ==> placed == old(placed)
      ensures outcome == Waiting ==> used == |rounds|
      ensures outcome == TimedOut ==> used > 0 && rounds[used - 1].now - start > timeout * 1000
      ensures forall j :: 0 <= j < used ==> rounds[j].now - start <= timeout * 1000 || (j == used - 1 && (outcome == TimedOut || outcome == GaveUp))
      ensures outcome == GaveUp ==>
                && used > 0 && GivesUpIn(old(State()), placedAt, old(Clock()), hasTimeoutHandler, rounds, used - 1)
                && SentAgain(old(State()), placedAt, old(Clock()), rounds[..used - 1], sent)
      ensures outcome == TimedOut || outcome == Waiting ==>
                Polled(old(State()), placedAt, old(Clock()), hasTimeoutHandler, rounds[..used], State(), Clock(), sent)
      ensures forall j :: 0 <= j < used ==> CannotPlace(old(State()), rounds, j, payload)
      ensures CanPlace(old(State()), payload) ==> outcome == Done && used == 0
    {
      hide Inv, Timed, Reply, State, Count, Safe, Replies, Place, HasDuplicate, Clock, HeardAll, Polled, GivesUpIn, SentAgain, Scheduled,
           CanPlace, FirstFree, PlacedAfter, CannotPlace, TimersAfter, Arrived;
      ghost var w, t := State(), Clock();
      used, sent := 0, [];
      var i := 0;
      FirstTry(w, rounds, payload);
      PolledNothing(w, placedAt, t, hasTimeoutHandler, rounds);
      var now: nat := start;
      while true
        invariant used == i <= |rounds| && Valid() && placed == old(placed) && placedAt == old(placedAt) && outbox == old(outbox) + sent
        invariant Polled(w, placedAt, t, hasTimeoutHandler, rounds[..i], State(), Clock(), sent)
        invariant now == PlacingTime(rounds[..i], start)
        invariant forall j :: 0 <= j < i ==> rounds[j].now - start <= timeout * 1000
        invariant forall j :: 0 <= j < i ==> CannotPlace(w, rounds, j, payload)
        decreases |rounds| - i
      {
        PolledState(w, placedAt, t, hasTimeoutHandler, rounds[..i], State(), Clock(), sent);
        var freeSlot, duplicate := FindPlace(payload);
        if freeSlot != -1 && duplicate == -1 {
          ghost var w0, t0 := State(), Clock();
          PlaceFrame(freeSlot, payload, now);
          PlacedNow(w, old(placedAt), t, hasTimeoutHandler, rounds[..i], start, payload, w0, t0, State(), placedAt, Clock(), sent);
          return Done, i, sent;
        }
        if i == |rounds| {
          return Waiting, i, sent;
        }
        TriedRound(w, rounds, i, start, payload);
        now := rounds[i].now;
        ghost var more;
        var gaveUp;
        gaveUp, more := Turn(rounds, i, w, t, sent);
        i := i + 1;
        used := i;
        if gaveUp {
          return GaveUp, i, sent;
        }
        sent := sent + more;
        if now - start > timeout * 1000 {
          return TimedOut, i, sent;
        }
      }
    }

    /** Schedules the expected replies of a read job, one request frame for each sector; nothing is sent. */
    method ScheduleReads(size: nat, start: nat, timeout: nat)
      requires Valid() && protocol.Sectors? && batchStart < WORD && size <= 255 && queueLength == MAX_UNACKED_FRAMES
      requires Count(State().flags) == 0
      modifies this`retxInterval, this`retxCount, this`lastResend, this`lastRx, this`lastRxInterval, this`packetSeq, this`outbox
      modifies this`owner, this`placed, this`placedAt, this`matched, frameUnacked, frames, sentTimes, readData
      ensures Valid() && ReadJob(State(), |old(placed)|, size) && matched == old(matched) && readData[..] == old(readData[..])
      ensures outbox == old(outbox) && Clock() == if size == 0 then old(Clock()) else Scheduled(old(Clock()), start)
      ensures |placedAt| == |placed| && forall k :: |old(placed)| <= k < |placed| ==> placedAt[k] == start
    {
      hide Inv, Timed, Match, Count, ReadFrame, Embed, HasDuplicate, Safe, IsReadFrame, Replies, Duplicate;
      ghost var first := |placed|;
      DrainedExactly(State());
      var i := 0;
      while i < size
        invariant i <= size && Valid() && ReadJob(State(), first, i) && Count(State().flags) == i
        invariant matched == old(matched) && readData[..] == old(readData[..])
        invariant outbox == old(outbox) && Clock() == if i == 0 then old(Clock()) else Scheduled(old(Clock()), start)
        invariant forall k :: first <= k < |placedAt| ==> placedAt[k] == start
      {
        ghost var w := State();
        var payload := ReadFrame((batchStart + i) % WORD);
        FreeWhenNotFull(w.flags);
        NoDuplicateSectors(w, payload);
        PlaceKeeps(w, payload);
        PlaceRead(w, first, i);
        NothingIsSafe(w);
        NothingArrived(w, []);
        var outcome, used, sent := ExpectAck(payload, start, timeout, []);
        i := i + 1;
      }
    }

    /**
     * process_ethernet_read_sectors_job on a drained window: the replies are scheduled,
     * and one request for the whole range goes out.
     */
    method RequestSectors(sector: nat, size: nat, start: nat, timeout: nat)
      requires Valid() && protocol.Sectors? && sector < WORD && size <= 255 && queueLength == MAX_UNACKED_FRAMES
      requires Count(State().flags) == 0
      modifies this`retxInterval, this`retxCount, this`lastResend, this`lastRx, this`lastRxInterval, this`packetSeq, this`outbox, this`batchStart
      modifies this`owner, this`placed, this`placedAt, this`matched, frameUnacked, frames, sentTimes, readData
      ensures Valid() && ReadJob(State(), |old(placed)|, size) && State().start == sector
      ensures matched == old(matched) && readData[..] == old(readData[..]) && forall k :: k in matched ==> k < |old(placed)|
      ensures |outbox| == |old(outbox)| + 1 && outbox[..|old(outbox)|] == old(outbox)
      ensures IsJobFrame(outbox[|old(outbox)|], old(packetSeq), sector, size)
      ensures Clock() == if size == 0 then old(Clock()) else Scheduled(old(Clock()), start)
      ensures |placedAt| == |placed| && forall k :: |old(placed)| <= k < |placed| ==> placedAt[k] == start
    {
      hide Inv, Match, Count, ReadJob, Scheduled, IsJobFrame;
      StartFree(State(), sector);
      batchStart := sector;
      var seqNumber := packetSeq;
      ScheduleReads(size, start, timeout);
      var job := Request() + [0, 0, 0x04, (size - 1) % 0x100, 0] + PutLe32([0, 0, 0, 0], 0, sector);
      JobFrame(seqNumber, sector, size);
      outbox := outbox + [Embed(protocol, job, seqNumber)];
    }

    /**
     * A read job and the wait that follows it.  After the request for the whole range
     * only requests for single sectors of it go out.  Whatever the network does, Done
     * means that every request was freed by something received, and that slot k of the
     * read buffer holds a received copy of sector first + k if and only if that was a
     * sector reply; and once a copy of every sector has arrived in time, it is Done.
     * w and t are the window and the times when the wait begins.
     */
    method ReadSectors(sector: nat, size: nat, start: nat, timeout: nat, rounds: seq<Round>)
      returns (outcome: Outcome, ghost used: nat, ghost sent: seq<seq<byte>>, ghost w: Window, ghost t: Timers)
      requires Valid() && protocol.Sectors? && sector < WORD && size <= 255 && queueLength == MAX_UNACKED_FRAMES
      requires Count(State().flags) == 0
      modifies this`retxInterval, this`retxCount, this`lastResend, this`lastRx, this`lastRxInterval, this`packetSeq, this`outbox, this`batchStart
      modifies this`owner, this`placed, this`placedAt, this`matched, frameUnacked, frames, sentTimes, readData
      ensures Valid() && (outcome == Done ==> Count(State().flags) == 0)
      ensures forall k :: size <= k < READ_SECTORS ==> readData[k] == old(readData[k])
      ensures outcome == Done ==> FilledBy(State(), |old(placed)|, size, old(readData[..]), Arrived(rounds))
      ensures outcome == Done && OnlySectorReplies(Arrived(rounds)) ==>
                forall k :: 0 <= k < size ==> Delivered(Arrived(rounds), (sector + k) % WORD, readData[k])
      ensures |outbox| == |old(outbox)| + 1 + |sent| && outbox[..|old(outbox)|] == old(outbox) && outbox[|old(outbox)| + 1..] == sent
      ensures IsJobFrame(outbox[|old(outbox)|], old(packetSeq), sector, size)
      ensures forall i :: 0 <= i < |sent| ==> AsksAgain(sent[i], sector, size)
      ensures Inv(w) && ReadJob(w, |old(placed)|, size) && w.start == sector && used <= |rounds|
      ensures t == if size == 0 then old(Clock()) else Scheduled(old(Clock()), start)
      ensures outcome != GaveUp ==> Polled(w, placedAt, t, hasTimeoutHandler, rounds[..used], State(), Clock(), sent)
      ensures (!hasTimeoutHandler || timeout * 1000 <= ACK_TIMEOUT) && (exists r: nat :: AnsweredBy(rounds, r, sector, size, start, timeout)) ==>
                outcome == Done
    {
      hide Inv, Timed, Match, Count, SectorReply, ReadJob, Safe, Replies, Delivered, FilledBy, Polled, Scheduled, AnsweredBy,
           IsJobFrame, AsksAgain, GivesUpIn, MustWait, InTime, SentAgain;
      ghost var before := readData[..];
      ghost var first := |placed|;
      ghost var out := outbox;
      RequestSectors(sector, size, start, timeout);
      w, t := State(), Clock();
      ReadJobIsSafe(w, first, size, Arrived(rounds));
      outcome, used, sent := WaitAckSlots(queueLength, start, timeout, rounds);
      SentInWait(w, placedAt, t, hasTimeoutHandler, rounds, used, outcome == GaveUp, State(), Clock(), sent, first, size);
      RepliesAssemble(w, first, size, Arrived(rounds[..used]));
      ArrivedSplit(rounds, used);
      if outcome == Done {
        ReadJobFills(w, first, size, Arrived(rounds[..used]));
        FilledLater(State(), first, size, before, Arrived(rounds[..used]), Arrived(rounds));
      } else {
        NotAnswered(w, placedAt, t, hasTimeoutHandler, rounds, used, outcome, first, size, start, timeout);
      }
      if outcome == Done && OnlySectorReplies(Arrived(rounds)) {
        ReadJobDelivers(w, first, size, Arrived(rounds[..used]));
        forall k | 0 <= k < size ensures Delivered(Arrived(rounds), (sector + k) % WORD, readData[k]) {
          assert readData[k] == State().data[k];
          DeliveredLater(Arrived(rounds[..used]), Arrived(rounds), (sector + k) % WORD, State().data[k]);
        }
      }
    }
  }

  /** The request for a range of sectors: command 4, the number of sectors less one in a byte, and the first sector. */
  ghost predicate IsJobFrame(p: seq<byte>, seqNumber: nat, sector: nat, size: nat) {
    && |p| == 13 && p[..4] == [0x6d, 0x72, 0x65, 0x71] && LeValue(p[4..6]) == seqNumber % 0x1_0000
    && p[6] == 0x04 && p[7] as int + 1 == (if size == 0 then 0x100 else size) && p[8] == 0 && LeValue(p[9..13]) == sector
  }

  lemma JobFrame(seqNumber: nat, sector: nat, size: nat)
    requires sector < WORD && size <= 255
    ensures IsJobFrame(Embed(Sectors, Request() + [0, 0, 0x04, (size - 1) % 0x100, 0] + PutLe32([0, 0, 0, 0], 0, sector), seqNumber), seqNumber, sector, size)
  {
    hide LeValue, Embed, PutLe32;
    JobBytes(sector, size);
    EmbedBytes(Request() + [0, 0, 0x04, (size - 1) % 0x100, 0] + PutLe32([0, 0, 0, 0], 0, sector), seqNumber);
  }

  lemma JobBytes(sector: nat, size: nat)
    requires sector < WORD && size <= 255
    ensures var p := Request() + [0, 0, 0x04, (size - 1) % 0x100, 0] + PutLe32([0, 0, 0, 0], 0, sector);
            && |p| == 13 && p[..4] == [0x6d, 0x72, 0x65, 0x71] && p[6] == 0x04 && p[8] == 0
            && p[7] as int + 1 == (if size == 0 then 0x100 else size) && LeValue(p[9..13]) == sector
  {
    hide LeValue, PutLe32;
    var head := Request() + [0, 0, 0x04, (size - 1) % 0x100, 0];
    NumberBehind(head, sector);
    var p := head + PutLe32([0, 0, 0, 0], 0, sector);
    assert head[..4] == Request();
    assert p[6] == p[..9][6] && p[7] == p[..9][7] && p[8] == p[..9][8];
  }

  lemma EmbedBytes(payload: seq<byte>, n: nat)
    requires |payload| == 13
    ensures var p := Embed(Sectors, payload, n);
            && |p| == 13 && p[..4] == payload[..4] && LeValue(p[4..6]) == n % 0x1_0000
            && p[6] == payload[6] && p[7] == payload[7] && p[8] == payload[8] && p[9..13] == payload[9..13]
  {
    hide LeValue;
    HalfFieldIsNumber(payload, 4, n);
  }

  /** A request for one sector of the range, as it is sent again. */
  ghost predicate AsksAgain(p: seq<byte>, sector: nat, size: nat) {
    && |p| == 13 && p[..4] == [0x6d, 0x72, 0x65, 0x71] && p[6] == 0x04 && p[7] == 1 && p[8] == 0
    && exists k: nat :: k < size && LeValue(p[9..13]) == NthSector(sector, k)
  }

  function NthSector(sector: nat, k: nat): nat {
    (sector + k) % WORD
  }

  lemma OldRequest(w: Window, w': Window, at: seq<nat>, first: nat, size: nat, bytes: seq<byte>)
    requires Inv(w) && ReadJob(w, first, size) && IsOldFrame(w', at, bytes)
    requires w'.placed == w.placed && forall k :: k in w.matched ==> k in w'.matched
    ensures AsksAgain(bytes, w.start, size)
  {
    hide SlotsLogged, NoDuplicates, AllLogged, Count, LeValue, IsReadFrame;
    var k: nat :| IsOldest(w', at, k) && bytes == w'.placed[k].bytes[..w'.placed[k].len];
    assert k >= first;
    assert IsReadFrame(w.placed[k], (w.start + (k - first)) % WORD);
    RequestBytes(w.placed[k], NthSector(w.start, k - first));
  }

  lemma RequestBytes(f: Frame, sector: nat)
    requires IsReadFrame(f, sector)
    ensures var p := f.bytes[..f.len];
            |p| == 13 && p[..4] == [0x6d, 0x72, 0x65, 0x71] && p[6] == 0x04 && p[7] == 1 && p[8] == 0 && LeValue(p[9..13]) == sector
  {
    hide LeValue;
    assert f.bytes[..13][9..13] == f.bytes[9..13] && f.bytes[..13][..4] == f.bytes[..4];
  }

  lemma {:induction false} SentAreRequests(w: Window, at: seq<nat>, t: Timers, rounds: seq<Round>, sent: seq<seq<byte>>, first: nat, size: nat)
    requires Inv(w) && ReadJob(w, first, size) && SentAgain(w, at, t, rounds, sent)
    ensures forall i :: 0 <= i < |sent| ==> AsksAgain(sent[i], w.start, size)
    decreases |rounds|
  {
    hide SlotsLogged, NoDuplicates, AllLogged, Count, Replies, ResendsIn, IsOldFrame, AsksAgain, ReadJob;
    if rounds != [] {
      var i := |rounds| - 1;
      RepliesGrow(w, Arrived(rounds));
      if ResendsIn(w, t, rounds, i) {
        SentAreRequests(w, at, t, rounds[..i], sent[..|sent| - 1], first, size);
        OldRequest(w, Replies(w, Arrived(rounds)), at, first, size, sent[|sent| - 1]);
      } else {
        SentAreRequests(w, at, t, rounds[..i], sent, first, size);
      }
    }
  }

  lemma SentInWait(w: Window, at: seq<nat>, t: Timers, handler: bool, rounds: seq<Round>, used: nat, gaveUp: bool, w': Window, t': Timers,
                   sent: seq<seq<byte>>, first: nat, size: nat)
    requires Inv(w) && ReadJob(w, first, size) && used <= |rounds|
    requires if gaveUp then used > 0 && SentAgain(w, at, t, rounds[..used - 1], sent)
             else Polled(w, at, t, handler, rounds[..used], w', t', sent)
    ensures forall i :: 0 <= i < |sent| ==> AsksAgain(sent[i], w.start, size)
  {
    hide SlotsLogged, NoDuplicates, AllLogged, Count, ReadJob, SentAgain, AsksAgain, GivesUpIn, Replies;
    SentAreRequests(w, at, t, if gaveUp then rounds[..used - 1] else rounds[..used], sent, first, size);
  }

  /** Before round r, which is in time like all before it, a copy of every sector has arrived. */
  ghost predicate AnsweredBy(rounds: seq<Round>, r: nat, sector: nat, size: nat, start: nat, timeout: nat) {
    && r < |rounds| && (forall j :: 0 <= j <= r ==> InTime(rounds, j, start, timeout))
    && forall k: nat :: k < size ==> CopyArrived(Arrived(rounds[..r]), sector, k)
  }

  /** A wait for a read job that does not end well has not been answered. */
  lemma NotAnswered(w: Window, at: seq<nat>, t: Timers, handler: bool, rounds: seq<Round>, used: nat, outcome: Outcome,
                    first: nat, size: nat, start: nat, timeout: nat)
    requires Inv(w) && ReadJob(w, first, size) && used <= |rounds| && outcome != Done
    requires forall k :: k in w.matched ==> k < first
    requires forall k :: first <= k < |at| ==> at[k] == start
    requires MustWait(w, rounds, used, start, timeout, |w.flags|)
    requires outcome == TimedOut ==> used < |rounds| && !InTime(rounds, used, start, timeout)
    requires outcome == Waiting ==> used == |rounds|
    requires outcome == GaveUp ==> used > 0 && GivesUpIn(w, at, t, handler, rounds, used - 1)
    ensures !handler || timeout * 1000 <= ACK_TIMEOUT ==> forall r: nat :: !AnsweredBy(rounds, r, w.start, size, start, timeout)
  {
    hide SlotsLogged, NoDuplicates, AllLogged, Count, Replies, GivesUpIn, CopyArrived, InTime, IsReadFrame;
    if !handler || timeout * 1000 <= ACK_TIMEOUT {
      forall r: nat | AnsweredBy(rounds, r, w.start, size, start, timeout) ensures false {
        CopiesDrain(w, first, size, Arrived(rounds[..r]));
        assert !StillNeeds(w, rounds, r, |w.flags|);
        if outcome == GaveUp {
          NoGiveUp(w, at, t, handler, rounds, used - 1, first, start, timeout);
        }
      }
    }
  }

  lemma NothingArrived(w: Window, rounds: seq<Round>)
    requires Shape(w)
    ensures Replies(w, Arrived(rounds[..0])) == w
  {
  }

  lemma NothingIsSafe(w: Window)
    requires Shape(w)
    ensures Safe(w, Arrived([]))
  {
  }

  lemma NoDuplicateSectors(w: Window, payload: seq<byte>)
    requires Shape(w) && w.protocol.Sectors?
    ensures !HasDuplicate(w, payload)
  {
  }

  lemma DeliveredLater(a: seq<seq<byte>>, b: seq<seq<byte>>, sector: nat, data: Sector)
    requires a <= b && Delivered(a, sector, data)
    ensures Delivered(b, sector, data)
  {
    var i :| 0 <= i < |a| && SectorReply(a[i]) && NamedSector(a[i]) == sector && data == SectorBytes(a[i]);
    assert b[i] == a[i];
  }

  lemma FilledLater(w: Window, first: nat, size: nat, before: seq<Sector>, a: seq<seq<byte>>, b: seq<seq<byte>>)
    requires a <= b && FilledBy(w, first, size, before, a)
    ensures FilledBy(w, first, size, before, b)
  {
    hide SectorReply, NamedSector, SectorBytes;
    assert forall x :: x in a ==> x in b;
    forall k: nat | k < size ensures SlotFilled(w, first, k, before, b) {
      assert SlotFilled(w, first, k, before, a);
    }
  }

  /** The start sector takes no part in the invariant; replies name placed frames only. */
  lemma StartFree(w: Window, sector: nat)
    requires Inv(w)
    ensures Inv(w.(start := sector)) && forall k :: k in w.matched ==> k < |w.placed|
  {
    hide Match, Duplicate, Count;
    var w' := w.(start := sector);
    forall k: nat | k < |w'.placed| ensures k in w'.matched || InSlot(w', k) {
      if k !in w.matched {
        var j :| 0 <= j < |w.flags| && w.flags[j] && w.owner[j] == k;
        assert w'.flags[j] && w'.owner[j] == k;
      }
    }
  }
}
