/**
 * When a request goes out again: the times that check_if_ack and maybe_send_ack of
 * etherload_common.c keep, as functions of the rounds of a polling loop, and what
 * they mean for every run: a lost request is sent again after at most a second of
 * silence, never twice within 50 milliseconds, and the program gives up only when
 * it has heard nothing for four seconds.
 */
module ReplyTimers {
  import opened Bytes
  import opened ReplyMatching

  const ACK_TIMEOUT: nat := 4000000

  /** One turn of a polling loop: a clock reading in microseconds and the packets that are waiting. */
  datatype Round = Round(now: nat, packets: seq<seq<byte>>)

  function Arrived(rounds: seq<Round>): seq<seq<byte>> {
    if rounds == [] then [] else Arrived(rounds[..|rounds| - 1]) + rounds[|rounds| - 1].packets
  }

  lemma ArrivedOne(rounds: seq<Round>, i: nat)
    requires i < |rounds|
    ensures Arrived(rounds[..i + 1]) == Arrived(rounds[..i]) + rounds[i].packets
  {
    assert rounds[..i + 1][..i] == rounds[..i];
  }

  /** The packets of the first i rounds and those that come after. */
  lemma {:induction false} ArrivedSplit(rounds: seq<Round>, i: nat)
    requires i <= |rounds|
    ensures Arrived(rounds[..i]) <= Arrived(rounds)
  {
    if i < |rounds| {
      var before := rounds[..|rounds| - 1];
      ArrivedSplit(before, i);
      assert before[..i] == rounds[..i];
    } else {
      assert rounds[..i] == rounds;
    }
  }

  /** A turn of a polling loop keeps within the safe arrivals. */
  lemma SafeTurn(w: Window, rounds: seq<Round>, i: nat)
    requires Shape(w) && i < |rounds| && Safe(w, Arrived(rounds))
    ensures Safe(Replies(w, Arrived(rounds[..i])), rounds[i].packets)
    ensures Replies(Replies(w, Arrived(rounds[..i])), rounds[i].packets) == Replies(w, Arrived(rounds[..i + 1]))
  {
    hide Reply, StoresInside, Safe, Replies;
    ArrivedOne(rounds, i);
    ArrivedSplit(rounds, i + 1);
    var a, b := Arrived(rounds[..i + 1]), Arrived(rounds);
    RepliesConcat(w, a, b[|a|..]);
    assert a + b[|a|..] == b;
    RepliesConcat(w, Arrived(rounds[..i]), rounds[i].packets);
  }

  lemma NextRound(w: Window, rounds: seq<Round>, i: nat)
    requires Shape(w) && i < |rounds|
    ensures Replies(Replies(w, Arrived(rounds[..i])), rounds[i].packets) == Replies(w, Arrived(rounds[..i + 1]))
  {
    hide Reply, Replies;
    ArrivedOne(rounds, i);
    RepliesConcat(w, Arrived(rounds[..i]), rounds[i].packets);
  }

  // ----- the times

  /** The interval before a resend, resends since the last packet, time of the last resend or success, and of the last packet (-1: none). */
  datatype Timers = Timers(interval: int, count: int, lastResend: int, lastRx: int, lastGap: int)

  /** update_retx_interval */
  function Interval(count: int, gap: int): (i: int)
    ensures 50000 <= i <= 1000000
  {
    var i := 2000 + count * gap;
    if i < 50000 then 50000 else if i > 1000000 then 1000000 else i
  }

  /** A packet with a sequence number has arrived. */
  function Heard(t: Timers, now: int): Timers {
    var gap := if t.lastRx == -1 then 0 else now - t.lastRx;
    Timers(Interval(0, gap), 0, t.lastResend, now, gap)
  }

  /** check_if_ack */
  function HeardOne(w: Window, t: Timers, rx: seq<byte>, now: int): Timers
    requires Shape(w)
  {
    if SeqNumber(w.protocol, rx) < 0 then t
    else if FirstMatch(w, rx) == |w.flags| then Heard(t, now)
    else Heard(t, now).(lastResend := now)
  }

  /** All packets of one turn. */
  function HeardAll(w: Window, t: Timers, packets: seq<seq<byte>>, now: int): Timers
    requires Shape(w)
    decreases |packets|
  {
    if packets == [] then t
    else
      var before := packets[..|packets| - 1];
      HeardOne(Replies(w, before), HeardAll(w, t, before, now), packets[|packets| - 1], now)
  }

  /** A frame has been sent again. */
  function Resent(t: Timers, now: int): Timers {
    Timers(Interval(t.count + 1, t.lastGap), t.count + 1, now, t.lastRx, t.lastGap)
  }

  /** expect_ack has placed a frame. */
  function Scheduled(t: Timers, now: int): Timers {
    t.(interval := Interval(t.count, t.lastGap), lastResend := now)
  }

  /** Something is outstanding, and the interval is over. */
  predicate Due(w: Window, t: Timers, now: int) {
    Count(w.flags) > 0 && now - t.lastResend > t.interval
  }

  /** One turn: the packets are taken, and then a frame is sent again if that is due. */
  function AfterRound(w: Window, t: Timers, r: Round): Timers
    requires Shape(w)
  {
    var t' := HeardAll(w, t, r.packets, r.now);
    if Due(Replies(w, r.packets), t', r.now) then Resent(t', r.now) else t'
  }

  function TimersAfter(w: Window, t: Timers, rounds: seq<Round>): Timers
    requires Shape(w)
    decreases |rounds|
  {
    if rounds == [] then t
    else
      var before := rounds[..|rounds| - 1];
      AfterRound(Replies(w, Arrived(before)), TimersAfter(w, t, before), rounds[|rounds| - 1])
  }

  /** The times in turn i between the packets and the resend. */
  function TimersIn(w: Window, t: Timers, rounds: seq<Round>, i: nat): Timers
    requires Shape(w) && i < |rounds|
  {
    HeardAll(Replies(w, Arrived(rounds[..i])), TimersAfter(w, t, rounds[..i]), rounds[i].packets, rounds[i].now)
  }

  /** Turn i sends a frame again. */
  predicate ResendsIn(w: Window, t: Timers, rounds: seq<Round>, i: nat)
    requires Shape(w) && i < |rounds|
  {
    Due(Replies(w, Arrived(rounds[..i + 1])), TimersIn(w, t, rounds, i), rounds[i].now)
  }

  lemma TimersStep(w: Window, t: Timers, rounds: seq<Round>, i: nat)
    requires Shape(w) && i < |rounds|
    ensures TimersAfter(w, t, rounds[..i + 1]) ==
            if ResendsIn(w, t, rounds, i) then Resent(TimersIn(w, t, rounds, i), rounds[i].now) else TimersIn(w, t, rounds, i)
  {
    hide Replies, HeardAll, Due, Resent;
    assert rounds[..i + 1][..i] == rounds[..i];
    NextRound(w, rounds, i);
  }

  /** A placed frame without a reply, placed no later than any other; at are the times of placing. */
  ghost predicate IsOldest(w: Window, at: seq<nat>, k: nat) {
    && |at| == |w.placed| && k < |w.placed| && k !in w.matched
    && forall j: nat :: j < |w.placed| && j !in w.matched ==> at[k] <= at[j]
  }

  /** The timeout handler, which ends the program, is called instead of a resend. */
  ghost predicate GivesUp(w: Window, at: seq<nat>, t: Timers, handler: bool, now: int) {
    && Due(w, t, now) && handler && t.lastRx != -1 && now - t.lastRx > ACK_TIMEOUT
    && exists k: nat :: IsOldest(w, at, k) && now - at[k] > ACK_TIMEOUT
  }

  ghost predicate GivesUpIn(w: Window, at: seq<nat>, t: Timers, handler: bool, rounds: seq<Round>, i: nat)
    requires Shape(w) && i < |rounds|
  {
    GivesUp(Replies(w, Arrived(rounds[..i + 1])), at, TimersIn(w, t, rounds, i), handler, rounds[i].now)
  }

  /** sent are the frames that the turns send again, in order: in each turn an oldest one, byte for byte. */
  ghost predicate SentAgain(w: Window, at: seq<nat>, t: Timers, rounds: seq<Round>, sent: seq<seq<byte>>)
    requires Shape(w)
    decreases |rounds|
  {
    if rounds == [] then sent == []
    else
      var i := |rounds| - 1;
      if ResendsIn(w, t, rounds, i)
      then sent != [] && IsOldFrame(Replies(w, Arrived(rounds)), at, sent[|sent| - 1]) && SentAgain(w, at, t, rounds[..i], sent[..|sent| - 1])
      else SentAgain(w, at, t, rounds[..i], sent)
  }

  ghost predicate IsOldFrame(w: Window, at: seq<nat>, bytes: seq<byte>) {
    exists k: nat :: IsOldest(w, at, k) && bytes == w.placed[k].bytes[..w.placed[k].len]
  }

  /** A polling loop that has gone through the rounds: what it has received, the times, what it has sent, and no end in between. */
  ghost predicate Polled(w: Window, at: seq<nat>, t: Timers, handler: bool, rounds: seq<Round>, w': Window, t': Timers, sent: seq<seq<byte>>)
    requires Shape(w)
  {
    && w' == Replies(w, Arrived(rounds)) && t' == TimersAfter(w, t, rounds) && SentAgain(w, at, t, rounds, sent)
    && forall i :: 0 <= i < |rounds| ==> !GivesUpIn(w, at, t, handler, rounds, i)
  }

  lemma PolledNothing(w: Window, at: seq<nat>, t: Timers, handler: bool, rounds: seq<Round>)
    requires Shape(w)
    ensures Polled(w, at, t, handler, rounds[..0], w, t, [])
  {
  }

  lemma PolledState(w: Window, at: seq<nat>, t: Timers, handler: bool, rounds: seq<Round>, w': Window, t': Timers, sent: seq<seq<byte>>)
    requires Shape(w) && Polled(w, at, t, handler, rounds, w', t', sent)
    ensures Shape(w') && w' == Replies(w, Arrived(rounds)) && t' == TimersAfter(w, t, rounds) && SentAgain(w, at, t, rounds, sent)
  {
    hide TimersAfter, SentAgain, GivesUpIn;
  }

  /** The first n rounds are in time, and before each there are too few free slots. */
  ghost predicate MustWait(w: Window, rounds: seq<Round>, n: nat, start: nat, timeout: nat, needed: nat) {
    forall j :: 0 <= j < n ==> InTime(rounds, j, start, timeout) && StillNeeds(w, rounds, j, needed)
  }

  lemma NothingWaited(w: Window, rounds: seq<Round>, start: nat, timeout: nat, needed: nat)
    ensures MustWait(w, rounds, 0, start, timeout, needed)
  {
  }

  lemma MustWaitOn(w: Window, rounds: seq<Round>, n: nat, start: nat, timeout: nat, needed: nat)
    requires Shape(w) && n < |rounds| && MustWait(w, rounds, n, start, timeout, needed) && InTime(rounds, n, start, timeout)
    requires Count(Replies(w, Arrived(rounds[..n])).flags) + needed > |w.flags|
    ensures MustWait(w, rounds, n + 1, start, timeout, needed)
  {
    hide Count, Replies, Arrived, InTime;
  }

  /** The time at which a frame is placed after the rounds. */
  function PlacingTime(rounds: seq<Round>, start: nat): nat {
    if rounds == [] then start else rounds[|rounds| - 1].now
  }

  /** A polling loop that has placed a frame after the rounds. */
  ghost predicate PlacedAfter(w: Window, at: seq<nat>, t: Timers, rounds: seq<Round>, start: nat, payload: seq<byte>,
                              w': Window, at': seq<nat>, t': Timers, sent: seq<seq<byte>>)
    requires Shape(w)
  {
    var w1 := Replies(w, Arrived(rounds));
    && CanPlace(w1, payload) && w' == Place(w1, payload) && at' == at + [PlacingTime(rounds, start)]
    && t' == Scheduled(TimersAfter(w, t, rounds), PlacingTime(rounds, start)) && SentAgain(w, at, t, rounds, sent)
  }

  /** Before round j the payload cannot be placed. */
  predicate CannotPlace(w: Window, rounds: seq<Round>, j: nat, payload: seq<byte>) {
    Shape(w) && j <= |rounds| && !CanPlace(Replies(w, Arrived(rounds[..j])), payload)
  }

  lemma PlacedNow(w: Window, at: seq<nat>, t: Timers, handler: bool, rounds: seq<Round>, start: nat, payload: seq<byte>,
                  w0: Window, t0: Timers, w': Window, at': seq<nat>, t': Timers, sent: seq<seq<byte>>)
    requires Shape(w) && Polled(w, at, t, handler, rounds, w0, t0, sent) && Shape(w0) && CanPlace(w0, payload)
    requires w' == Place(w0, payload) && at' == at + [PlacingTime(rounds, start)] && t' == Scheduled(t0, PlacingTime(rounds, start))
    ensures PlacedAfter(w, at, t, rounds, start, payload, w', at', t', sent)
  {
    hide TimersAfter, SentAgain, GivesUpIn, CanPlace, Place, Replies;
  }

  lemma FirstTry(w: Window, rounds: seq<Round>, payload: seq<byte>)
    requires Shape(w)
    ensures Replies(w, Arrived(rounds[..0])) == w && (CannotPlace(w, rounds, 0, payload) <==> !CanPlace(w, payload))
  {
    hide CanPlace;
  }

  lemma TriedRound(w: Window, rounds: seq<Round>, i: nat, start: nat, payload: seq<byte>)
    requires Shape(w) && i < |rounds| && !CanPlace(Replies(w, Arrived(rounds[..i])), payload)
    ensures CannotPlace(w, rounds, i, payload) && PlacingTime(rounds[..i + 1], start) == rounds[i].now
  {
    hide Replies, Arrived, CanPlace;
  }

  /** All oldest frames are equally old. */
  lemma OldestAge(w: Window, at: seq<nat>, k: nat, now: int)
    requires IsOldest(w, at, k)
    ensures (exists j: nat :: IsOldest(w, at, j) && now - at[j] > ACK_TIMEOUT) <==> now - at[k] > ACK_TIMEOUT
  {
  }

  /** The round is within the time of the loop, in milliseconds from start. */
  predicate InTime(rounds: seq<Round>, j: nat, start: nat, timeout: nat) {
    j < |rounds| && rounds[j].now - start < timeout * 1000
  }

  /** Before round j there are not as many free slots as are needed. */
  predicate StillNeeds(w: Window, rounds: seq<Round>, j: nat, needed: nat) {
    Shape(w) && j <= |rounds| && Count(Replies(w, Arrived(rounds[..j])).flags) + needed > |w.flags|
  }

  /** Turn i in terms of the window and the times before it. */
  lemma TurnIs(w: Window, at: seq<nat>, t: Timers, handler: bool, rounds: seq<Round>, i: nat)
    requires Shape(w) && i < |rounds|
    ensures var w0, t0 := Replies(w, Arrived(rounds[..i])), TimersAfter(w, t, rounds[..i]);
            var w1, t1 := Replies(w0, rounds[i].packets), HeardAll(w0, t0, rounds[i].packets, rounds[i].now);
            && w1 == Replies(w, Arrived(rounds[..i + 1])) && t1 == TimersIn(w, t, rounds, i)
            && (ResendsIn(w, t, rounds, i) <==> Due(w1, t1, rounds[i].now))
            && (GivesUpIn(w, at, t, handler, rounds, i) <==> GivesUp(w1, at, t1, handler, rounds[i].now))
            && TimersAfter(w, t, rounds[..i + 1]) == if Due(w1, t1, rounds[i].now) then Resent(t1, rounds[i].now) else t1
  {
    hide Replies, HeardAll, Due, GivesUp, Resent, TimersAfter;
    NextRound(w, rounds, i);
    TimersStep(w, t, rounds, i);
  }

  lemma GivesUpEarlier(w: Window, at: seq<nat>, t: Timers, handler: bool, rounds: seq<Round>, i: nat, j: nat)
    requires Shape(w) && j < i <= |rounds|
    ensures GivesUpIn(w, at, t, handler, rounds[..i], j) <==> GivesUpIn(w, at, t, handler, rounds, j)
  {
    hide Replies, HeardAll, GivesUp, TimersAfter;
    assert rounds[..i][..j] == rounds[..j] && rounds[..i][..j + 1] == rounds[..j + 1] && rounds[..i][j] == rounds[j];
  }

  lemma SentMore(w: Window, at: seq<nat>, t: Timers, rounds: seq<Round>, i: nat, sent: seq<seq<byte>>, sent': seq<seq<byte>>)
    requires Shape(w) && i < |rounds| && SentAgain(w, at, t, rounds[..i], sent)
    requires if ResendsIn(w, t, rounds, i)
             then sent' != [] && sent'[..|sent'| - 1] == sent && IsOldFrame(Replies(w, Arrived(rounds[..i + 1])), at, sent'[|sent'| - 1])
             else sent' == sent
    ensures SentAgain(w, at, t, rounds[..i + 1], sent')
  {
    hide Replies, TimersAfter, TimersIn, IsOldFrame, Due;
    var more := rounds[..i + 1];
    assert |more| - 1 == i && more[..i] == rounds[..i] && more[..i + 1] == more && more[i] == rounds[i];
    assert ResendsIn(w, t, more, i) <==> ResendsIn(w, t, rounds, i) by {
      SameTurn(w, t, rounds, i);
    }
  }

  lemma SameTurn(w: Window, t: Timers, rounds: seq<Round>, i: nat)
    requires Shape(w) && i < |rounds|
    ensures ResendsIn(w, t, rounds[..i + 1], i) <==> ResendsIn(w, t, rounds, i)
  {
    hide Replies, HeardAll, Due, TimersAfter;
    var more := rounds[..i + 1];
    assert more[..i] == rounds[..i] && more[..i + 1] == more && more[i] == rounds[i];
  }

  /** One turn more: w1 and t1 are the window and the times after the packets. */
  lemma PolledMore(w: Window, at: seq<nat>, t: Timers, handler: bool, rounds: seq<Round>, i: nat, w0: Window, t0: Timers, sent: seq<seq<byte>>,
                   w1: Window, t1: Timers, t2: Timers, sent': seq<seq<byte>>)
    requires Shape(w) && i < |rounds| && Polled(w, at, t, handler, rounds[..i], w0, t0, sent)
    requires Shape(w0) && w1 == Replies(w0, rounds[i].packets) && t1 == HeardAll(w0, t0, rounds[i].packets, rounds[i].now)
    ensures w1 == Replies(w, Arrived(rounds[..i + 1]))
    ensures GivesUpIn(w, at, t, handler, rounds, i) <==> GivesUp(w1, at, t1, handler, rounds[i].now)
    ensures !GivesUp(w1, at, t1, handler, rounds[i].now)
            && (if Due(w1, t1, rounds[i].now)
                then t2 == Resent(t1, rounds[i].now) && sent' != [] && sent'[..|sent'| - 1] == sent && IsOldFrame(w1, at, sent'[|sent'| - 1])
                else t2 == t1 && sent' == sent) ==>
              Polled(w, at, t, handler, rounds[..i + 1], w1, t2, sent')
  {
    hide Replies, HeardAll, Due, GivesUp, IsOldFrame, Resent, TimersAfter, ResendsIn, GivesUpIn, SentAgain;
    TurnIs(w, at, t, handler, rounds, i);
    if !GivesUp(w1, at, t1, handler, rounds[i].now)
       && (if Due(w1, t1, rounds[i].now)
           then t2 == Resent(t1, rounds[i].now) && sent' != [] && sent'[..|sent'| - 1] == sent && IsOldFrame(w1, at, sent'[|sent'| - 1])
           else t2 == t1 && sent' == sent)
    {
      SentMore(w, at, t, rounds, i, sent, sent');
      var more := rounds[..i + 1];
      forall j | 0 <= j < |more| ensures !GivesUpIn(w, at, t, handler, more, j) {
        GivesUpEarlier(w, at, t, handler, rounds, i + 1, j);
        if j < i {
          GivesUpEarlier(w, at, t, handler, rounds, i, j);
        }
      }
    }
  }

  // ----- what follows

  /** A packet that frees nothing leaves the time of the last success; every packet leaves an interval within its bounds. */
  lemma {:induction false} HeardBounds(w: Window, t: Timers, packets: seq<seq<byte>>, now: int)
    requires Inv(w)
    ensures var t' := HeardAll(w, t, packets, now);
            && (t'.interval == t.interval || 50000 <= t'.interval <= 1000000)
            && (t'.lastResend == t.lastResend || t'.lastResend == now) && (t'.lastRx == t.lastRx || t'.lastRx == now)
    ensures Count(Replies(w, packets).flags) == Count(w.flags) ==> HeardAll(w, t, packets, now).lastResend == t.lastResend
    decreases |packets|
  {
    hide SlotsLogged, NoDuplicates, AllLogged, Count, Match, SeqNumber;
    if packets != [] {
      var before := packets[..|packets| - 1];
      RepliesKeep(w, before);
      HeardBounds(w, t, before, now);
      ReplyKeeps(Replies(w, before), packets[|packets| - 1]);
    }
  }

  /** While no request is freed and none is sent again, the time of the last resend or success stays. */
  lemma {:induction false} NothingHappens(w: Window, t: Timers, rounds: seq<Round>, i: nat, j: nat)
    requires Inv(w) && i <= j <= |rounds|
    requires Count(Replies(w, Arrived(rounds[..j])).flags) == Count(Replies(w, Arrived(rounds[..i])).flags)
    requires forall m :: i <= m < j ==> !ResendsIn(w, t, rounds, m)
    requires TimersAfter(w, t, rounds[..i]).interval <= 1000000
    ensures TimersAfter(w, t, rounds[..j]).lastResend == TimersAfter(w, t, rounds[..i]).lastResend
    ensures TimersAfter(w, t, rounds[..j]).interval <= 1000000
    decreases j
  {
    hide SlotsLogged, NoDuplicates, AllLogged, Count, Replies, HeardAll, ResendsIn, TimersAfter;
    if i < j {
      CountFalls(w, rounds, i, j - 1);
      CountFalls(w, rounds, j - 1, j);
      NothingHappens(w, t, rounds, i, j - 1);
      RepliesKeep(w, Arrived(rounds[..j - 1]));
      NextRound(w, rounds, j - 1);
      HeardBounds(Replies(w, Arrived(rounds[..j - 1])), TimersAfter(w, t, rounds[..j - 1]), rounds[j - 1].packets, rounds[j - 1].now);
      TimersStep(w, t, rounds, j - 1);
    }
  }

  lemma {:induction false} CountFalls(w: Window, rounds: seq<Round>, i: nat, j: nat)
    requires Inv(w) && i <= j <= |rounds|
    ensures Count(Replies(w, Arrived(rounds[..j])).flags) <= Count(Replies(w, Arrived(rounds[..i])).flags)
    decreases j
  {
    hide SlotsLogged, NoDuplicates, AllLogged, Count, Replies;
    if i < j {
      CountFalls(w, rounds, i, j - 1);
      RepliesKeep(w, Arrived(rounds[..j - 1]));
      NextRound(w, rounds, j - 1);
      RepliesKeep(Replies(w, Arrived(rounds[..j - 1])), rounds[j - 1].packets);
    }
  }

  /**
   * A lost request is sent again: when something has been outstanding for more than a
   * second since the last resend or success, and nothing has been freed, one of the
   * turns in between has sent a frame again.
   */
  lemma SilenceResends(w: Window, t: Timers, rounds: seq<Round>, i: nat, j: nat)
    requires Inv(w) && i <= j < |rounds| && TimersAfter(w, t, rounds[..i]).interval <= 1000000
    requires Count(Replies(w, Arrived(rounds[..j + 1])).flags) == Count(Replies(w, Arrived(rounds[..i])).flags) > 0
    requires rounds[j].now - TimersAfter(w, t, rounds[..i]).lastResend > 1000000
    ensures exists m :: i <= m <= j && ResendsIn(w, t, rounds, m)
  {
    hide SlotsLogged, NoDuplicates, AllLogged, Count, Replies, HeardAll, TimersAfter;
    if forall m :: i <= m < j ==> !ResendsIn(w, t, rounds, m) {
      CountFalls(w, rounds, i, j);
      CountFalls(w, rounds, j, j + 1);
      NothingHappens(w, t, rounds, i, j);
      RepliesKeep(w, Arrived(rounds[..j]));
      NextRound(w, rounds, j);
      HeardBounds(Replies(w, Arrived(rounds[..j])), TimersAfter(w, t, rounds[..j]), rounds[j].packets, rounds[j].now);
      assert ResendsIn(w, t, rounds, j);
    }
  }

  ghost predicate ClockForward(rounds: seq<Round>) {
    forall i, j :: 0 <= i <= j < |rounds| ==> rounds[i].now <= rounds[j].now
  }

  lemma {:induction false} SinceResend(w: Window, t: Timers, rounds: seq<Round>, i: nat, j: nat)
    requires Inv(w) && i < j <= |rounds| && ClockForward(rounds) && ResendsIn(w, t, rounds, i)
    ensures TimersAfter(w, t, rounds[..j]).lastResend >= rounds[i].now && TimersAfter(w, t, rounds[..j]).interval >= 50000
    decreases j
  {
    hide SlotsLogged, NoDuplicates, AllLogged, Count, Replies, HeardAll, TimersAfter, Due;
    TimersStep(w, t, rounds, j - 1);
    if i + 1 < j {
      SinceResend(w, t, rounds, i, j - 1);
      RepliesKeep(w, Arrived(rounds[..j - 1]));
      HeardBounds(Replies(w, Arrived(rounds[..j - 1])), TimersAfter(w, t, rounds[..j - 1]), rounds[j - 1].packets, rounds[j - 1].now);
    }
  }

  /** Two resends are more than 50 milliseconds apart. */
  lemma ResendsApart(w: Window, t: Timers, rounds: seq<Round>, i: nat, j: nat)
    requires Inv(w) && i < j < |rounds| && ClockForward(rounds) && ResendsIn(w, t, rounds, i) && ResendsIn(w, t, rounds, j)
    ensures rounds[j].now - rounds[i].now > 50000
  {
    hide SlotsLogged, NoDuplicates, AllLogged, Count, Replies, HeardAll, TimersAfter;
    SinceResend(w, t, rounds, i, j);
    RepliesKeep(w, Arrived(rounds[..j]));
    HeardBounds(Replies(w, Arrived(rounds[..j])), TimersAfter(w, t, rounds[..j]), rounds[j].packets, rounds[j].now);
  }

  lemma {:induction false} RepliesGrow(w: Window, arrived: seq<seq<byte>>)
    requires Inv(w)
    ensures forall k :: k in w.matched ==> k in Replies(w, arrived).matched
    ensures Replies(w, arrived).placed == w.placed && Inv(Replies(w, arrived)) && |Replies(w, arrived).flags| == |w.flags|
    decreases |arrived|
  {
    hide SlotsLogged, NoDuplicates, AllLogged, Count, Reply;
    RepliesKeep(w, arrived);
    if arrived != [] {
      RepliesGrow(w, arrived[..|arrived| - 1]);
      ReplyGrows(Replies(w, arrived[..|arrived| - 1]), arrived[|arrived| - 1]);
    }
  }

  /** A loop that is shorter than the timeout does not give up on frames that were placed when it began. */
  lemma NoGiveUp(w: Window, at: seq<nat>, t: Timers, handler: bool, rounds: seq<Round>, j: nat, first: nat, start: nat, timeout: nat)
    requires Inv(w) && (forall k: nat :: k < first ==> k in w.matched)
    requires forall k :: first <= k < |at| ==> at[k] == start
    requires InTime(rounds, j, start, timeout) && (!handler || timeout * 1000 <= ACK_TIMEOUT)
    ensures !GivesUpIn(w, at, t, handler, rounds, j)
  {
    hide SlotsLogged, NoDuplicates, AllLogged, Count, Replies, TimersIn, Due;
    RepliesGrow(w, Arrived(rounds[..j + 1]));
  }

  /** A packet with a sequence number is among them. */
  predicate Numbered(protocol: Protocol, packets: seq<seq<byte>>) {
    exists i :: 0 <= i < |packets| && SeqNumber(protocol, packets[i]) >= 0
  }

  lemma {:induction false} HeardNow(w: Window, t: Timers, packets: seq<seq<byte>>, now: int)
    requires Inv(w)
    ensures Replies(w, packets).protocol == w.protocol
    ensures Numbered(w.protocol, packets) ==> HeardAll(w, t, packets, now).lastRx == now
    decreases |packets|
  {
    hide SlotsLogged, NoDuplicates, AllLogged, Count, Match, SeqNumber;
    if packets != [] {
      var before := packets[..|packets| - 1];
      HeardNow(w, t, before, now);
      RepliesKeep(w, before);
      ReplyGrows(Replies(w, before), packets[|packets| - 1]);
      if Numbered(w.protocol, packets) && SeqNumber(w.protocol, packets[|packets| - 1]) < 0 {
        var i :| 0 <= i < |packets| && SeqNumber(w.protocol, packets[i]) >= 0;
        assert before[i] == packets[i];
      }
    }
  }

  lemma {:induction false} LastHeard(w: Window, t: Timers, rounds: seq<Round>, m: nat, j: nat)
    requires Inv(w) && m < j <= |rounds| && ClockForward(rounds) && Numbered(w.protocol, rounds[m].packets)
    ensures TimersAfter(w, t, rounds[..j]).lastRx >= rounds[m].now
    decreases j
  {
    hide SlotsLogged, NoDuplicates, AllLogged, Count, Replies, HeardAll, TimersAfter, Due, ResendsIn, Numbered;
    TimersStep(w, t, rounds, j - 1);
    RepliesKeep(w, Arrived(rounds[..j - 1]));
    HeardNow(w, t, Arrived(rounds[..j - 1]), 0);
    var w0, t0 := Replies(w, Arrived(rounds[..j - 1])), TimersAfter(w, t, rounds[..j - 1]);
    if m + 1 < j {
      LastHeard(w, t, rounds, m, j - 1);
      HeardBounds(w0, t0, rounds[j - 1].packets, rounds[j - 1].now);
    } else {
      HeardNow(w0, t0, rounds[m].packets, rounds[m].now);
    }
  }

  /** The program gives up only when it has heard nothing for four seconds. */
  lemma GivesUpAfterSilence(w: Window, at: seq<nat>, t: Timers, handler: bool, rounds: seq<Round>, j: nat, m: nat)
    requires Inv(w) && m <= j < |rounds| && ClockForward(rounds) && GivesUpIn(w, at, t, handler, rounds, j)
    requires Numbered(w.protocol, rounds[m].packets)
    ensures rounds[j].now - rounds[m].now > ACK_TIMEOUT
  {
    hide SlotsLogged, NoDuplicates, AllLogged, Count, Replies, HeardAll, TimersAfter, Numbered;
    var w0, t0 := Replies(w, Arrived(rounds[..j])), TimersAfter(w, t, rounds[..j]);
    RepliesKeep(w, Arrived(rounds[..j]));
    HeardNow(w, t, Arrived(rounds[..j]), 0);
    HeardNow(w0, t0, rounds[j].packets, rounds[j].now);
    HeardBounds(w0, t0, rounds[j].packets, rounds[j].now);
    if m < j {
      LastHeard(w, t, rounds, m, j);
    }
  }
}
