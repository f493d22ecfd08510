/**
 * find_contiguous_clusters as the original runs it: round after round of
 * find_free_cluster and a probe, with no limit.  It stops exactly when a long
 * enough run exists or nothing is free.
 */
module SearchRounds {
  import opened Chains
  import opened Allocator

  /** The first free cluster from c on, or |fat|. */
  function FirstFree(fat: Fat, c: nat): (r: nat)
    requires c <= |fat|
    ensures c <= r <= |fat| && (r < |fat| ==> fat[r] == 0)
    ensures forall e :: c <= e < r ==> fat[e] != 0
    decreases |fat| - c
  {
    if c == |fat| || fat[c] == 0 then c else FirstFree(fat, c + 1)
  }

  /** The result of find_free_cluster(cursor). */
  function NextFree(fat: Fat, cursor: nat): (r: nat)
    requires cursor <= |fat| && 2 <= |fat|
    ensures CyclicFirst(fat, MaxOf(cursor, 2), r)
  {
    var here := FirstFree(fat, MaxOf(cursor, 2));
    if here < |fat| then here
    else
      var front := FirstFree(fat, 2);
      if front < |fat| then front else 0
  }

  /** How many clusters the probe from s finds free, at most n; the first cnt are known to be. */
  function Probe(fat: Fat, s: nat, cnt: nat, n: nat): (r: nat)
    requires 1 <= cnt <= n && RunAt(fat, s, cnt)
    ensures cnt <= r <= n && RunAt(fat, s, r)
    ensures r < n ==> s + r == |fat| || fat[s + r] != 0
    decreases n - cnt
  {
    if cnt < n && s + cnt < |fat| && fat[s + cnt] == 0 then Probe(fat, s, cnt + 1, n) else cnt
  }

  datatype Round = At(cursor: nat) | Stopped(result: nat)

  function OneRound(fat: Fat, n: nat, cursor: nat): (r: Round)
    requires 2 <= |fat| && n > 0 && cursor <= |fat|
    ensures r.At? ==> r.cursor <= |fat|
  {
    var s := NextFree(fat, cursor);
    if s == 0 then Stopped(0)
    else
      var cnt := Probe(fat, s, 1, n);
      if cnt == n then Stopped(s) else At(s + cnt)
  }

  /** The search after k rounds. */
  function Rounds(fat: Fat, n: nat, k: nat): (r: Round)
    requires 2 <= |fat| && n > 0
    ensures r.At? ==> r.cursor <= |fat|
  {
    if k == 0 then At(0)
    else
      match Rounds(fat, n, k - 1)
      case At(cursor) => OneRound(fat, n, cursor)
      case Stopped(r) => Stopped(r)
  }

  ghost predicate LowestRun(fat: Fat, n: nat, s: nat) {
    RunAt(fat, s, n) && forall t: nat :: t < s ==> !RunAt(fat, t, n)
  }

  /** One round from a cursor that has missed no run finds the lowest run or moves up towards it. */
  lemma Towards(fat: Fat, n: nat, s0: nat, cursor: nat)
    requires 2 <= |fat| && n > 0 && LowestRun(fat, n, s0) && cursor <= s0
    ensures var r := OneRound(fat, n, cursor);
            r == Stopped(s0) || (r.At? && cursor < r.cursor <= s0)
  {
    RunStartsFree(fat, s0, n);
    var s := NextFree(fat, cursor);
    assert cursor <= s <= s0;
    var cnt := Probe(fat, s, 1, n);
    NoRunBefore(fat, s, s, cnt, n);
  }

  lemma {:induction false} ComesToRun(fat: Fat, n: nat, s0: nat, k: nat) returns (k': nat)
    requires 2 <= |fat| && n > 0 && LowestRun(fat, n, s0)
    requires Rounds(fat, n, k).At? && Rounds(fat, n, k).cursor <= s0
    ensures Rounds(fat, n, k') == Stopped(s0)
    decreases s0 - Rounds(fat, n, k).cursor
  {
    var cursor := Rounds(fat, n, k).cursor;
    Towards(fat, n, s0, cursor);
    assert Rounds(fat, n, k + 1) == OneRound(fat, n, cursor);
    if Rounds(fat, n, k + 1).Stopped? {
      return k + 1;
    }
    k' := ComesToRun(fat, n, s0, k + 1);
  }

  lemma GoesOn(fat: Fat, n: nat, cursor: nat)
    requires 2 <= |fat| && n > 0 && !NoneFree(fat) && !SomeRun(fat, n) && cursor <= |fat|
    ensures OneRound(fat, n, cursor).At?
  {
    var s := NextFree(fat, cursor);
    var cnt := Probe(fat, s, 1, n);
    assert RunAt(fat, s, cnt);
  }

  /** Without a run, and with something free, no round is the last. */
  lemma {:induction false} NeverStops(fat: Fat, n: nat, k: nat)
    requires 2 <= |fat| && n > 0 && !NoneFree(fat) && !SomeRun(fat, n)
    ensures Rounds(fat, n, k).At?
  {
    if k > 0 {
      NeverStops(fat, n, k - 1);
      GoesOn(fat, n, Rounds(fat, n, k - 1).cursor);
    }
  }

  lemma LowestExists(fat: Fat, n: nat) returns (s0: nat)
    requires SomeRun(fat, n)
    ensures LowestRun(fat, n, s0)
  {
    var s: nat :| RunAt(fat, s, n);
    s0 := 0;
    while !RunAt(fat, s0, n)
      invariant s0 <= s && forall t: nat :: t < s0 ==> !RunAt(fat, t, n)
      decreases s - s0
    {
      s0 := s0 + 1;
    }
  }

  /** The unbounded search comes to an end if and only if a run exists or nothing is free. */
  lemma EndlessExactly(fat: Fat, n: nat)
    requires 2 <= |fat| && n > 0
    ensures (exists k: nat :: Rounds(fat, n, k).Stopped?) <==> SomeRun(fat, n) || NoneFree(fat)
    ensures forall s0: nat :: LowestRun(fat, n, s0) ==> exists k: nat :: Rounds(fat, n, k) == Stopped(s0)
  {
    forall s0: nat | LowestRun(fat, n, s0) ensures exists k: nat :: Rounds(fat, n, k) == Stopped(s0) {
      var k := ComesToRun(fat, n, s0, 0);
    }
    if SomeRun(fat, n) {
      var s0 := LowestExists(fat, n);
      var k := ComesToRun(fat, n, s0, 0);
      assert Rounds(fat, n, k).Stopped?;
    } else if NoneFree(fat) {
      assert Rounds(fat, n, 1) == OneRound(fat, n, 0) == Stopped(0);
      assert Rounds(fat, n, 1).Stopped?;
    } else {
      forall k: nat ensures Rounds(fat, n, k).At? {
        NeverStops(fat, n, k);
      }
    }
  }

  /** One FAT sector's entries, all used by files of one cluster, except for one free cluster. */
  function AllBut(free: nat): (fat: Fat)
    ensures |fat| == 128 && forall c :: 0 <= c < 128 ==> fat[c] == if c == free then 0 else END_MARK
  {
    seq(128, c => if c == free then 0 else END_MARK)
  }

  /** A volume with one free cluster and no other fault: the search for two clusters or more never ends. */
  lemma EndlessExample(free: nat, n: nat)
    requires 2 <= free < 128 && n >= 2
    ensures WellFormed(AllBut(free), map i: int | 2 <= i < 128 && i != free :: [i])
    ensures forall k: nat :: Rounds(AllBut(free), n, k).At?
  {
    var fat := AllBut(free);
    var chains: map<int, seq<nat>> := map i: int | 2 <= i < 128 && i != free :: [i];
    assert fat[free] == 0;
    forall c | 2 <= c < |fat| && fat[c] != 0 ensures Owned(chains, c) {
      assert c in chains[c];
    }
    forall s: nat ensures !RunAt(fat, s, n) {
      if 2 <= s && s + n <= |fat| {
        assert fat[s] != 0 || fat[s + 1] != 0;
      }
    }
    forall k: nat ensures Rounds(fat, n, k).At? {
      NeverStops(fat, n, k);
    }
  }
}
