/**
 * The sector cache, the merging write queue and the read-ahead of
 * lib/libm65ftp/mega65_ftp.c.  `Store` holds the value of the C globals; the class
 * works on the arrays themselves and is proved against the functions on `Store`.
 */
module SectorStore {
  import opened Bytes
  import WB = WriteBatches

  /** A sector number and the bytes held for it. */
  type Line = (nat, Sector)

  const CACHE_SIZE: nat := 4096
  const QUEUE_BYTES: nat := 32768

  datatype Store = Store(cache: seq<Line>, queue: seq<Line>, device: WB.Device)

  /** Index of the first line for sector n, or the number of lines. */
  function Find(lines: seq<Line>, n: nat): (i: nat)
    ensures i <= |lines|
    ensures i < |lines| ==> lines[i].0 == n
    ensures forall k :: 0 <= k < i ==> lines[k].0 != n
  {
    if lines == [] then 0
    else if lines[0].0 == n then 0
    else 1 + Find(lines[1..], n)
  }

  function Put(lines: seq<Line>, n: nat, data: Sector): seq<Line> {
    var i := Find(lines, n);
    if i < |lines| then lines[i := (n, data)] else lines + [(n, data)]
  }

  /** execute_write_queue */
  function Drain(s: Store): Store {
    Store(s.cache, [], WB.Store(s.device, s.queue))
  }

  /** queue_write_sector: merge, or append after purging a full queue. */
  function Enqueue(s: Store, n: nat, data: Sector): Store {
    if Find(s.queue, n) < |s.queue| then s.(queue := Put(s.queue, n, data))
    else
      var s' := if 512 * |s.queue| >= QUEUE_BYTES then Drain(s) else s;
      s'.(queue := s'.queue + [(n, data)])
  }

  /** The cache update shared by read_sector and write_sector; a full cache is emptied. */
  function Keep(s: Store, n: nat, data: Sector): Store {
    if Find(s.cache, n) < CACHE_SIZE then s.(cache := Put(s.cache, n, data)) else Drain(s).(cache := [])
  }

  /** write_sector */
  function Write(s: Store, n: nat, data: Sector): Store {
    Keep(Enqueue(s, n, data), n, data)
  }

  /** Caches the sectors of a read-ahead batch in order. */
  function Fill(s: Store, n: nat, batch: seq<Sector>): Store
    decreases |batch|
  {
    if batch == [] then s
    else Keep(Fill(s, n, batch[..|batch| - 1]), n + |batch| - 1, batch[|batch| - 1])
  }

  function BatchSize(readAhead: nat): nat { if readAhead > 16 then readAhead else 16 }

  /** The device's sectors n, n + 1, ... */
  function Window(dev: WB.Device, n: nat, size: nat): (w: seq<Sector>)
    ensures |w| == size && forall k :: 0 <= k < size ==> w[k] == WB.Get(dev, n + k)
  {
    seq<Sector>(size, k requires 0 <= k < size => WB.Get(dev, n + k))
  }

  predicate Hit(s: Store, n: nat, useCache: bool) {
    useCache && Find(s.cache, n) < |s.cache|
  }

  /** read_sector: the new state and the sector handed to the caller. */
  function Read(s: Store, n: nat, useCache: bool, readAhead: nat): (Store, Sector) {
    if Hit(s, n, useCache) then (s, s.cache[Find(s.cache, n)].1)
    else (Fill(s, n, Window(s.device, n, BatchSize(readAhead))), WB.Get(s.device, n))
  }

  // ----- the flat disk

  /** What every sector should read as: the device with the pending writes applied. */
  function Flat(s: Store): WB.Device {
    WB.Store(s.device, s.queue)
  }

  predicate DistinctKeys(lines: seq<Line>) {
    forall i, j :: 0 <= i < j < |lines| ==> lines[i].0 != lines[j].0
  }

  predicate Listed(lines: seq<Line>, n: nat) {
    exists i :: 0 <= i < |lines| && lines[i].0 == n
  }

  /** Cached lines agree with the flat disk, and what is pending is cached. */
  predicate Coherent(s: Store) {
    && DistinctKeys(s.cache) && |s.cache| <= CACHE_SIZE
    && DistinctKeys(s.queue) && 512 * |s.queue| <= QUEUE_BYTES
    && (forall i :: 0 <= i < |s.cache| ==> s.cache[i].1 == WB.Get(Flat(s), s.cache[i].0))
    && (forall i :: 0 <= i < |s.queue| ==> Listed(s.cache, s.queue[i].0))
  }

  /** No pending write in the window differs from what the device still holds. */
  predicate FreshWindow(s: Store, n: nat, size: nat) {
    forall k :: n <= k < n + size ==> WB.Get(s.device, k) == WB.Get(Flat(s), k)
  }

  /** Put adds or replaces the line of n and touches no other. */
  lemma PutLine(lines: seq<Line>, n: nat, data: Sector)
    requires DistinctKeys(lines)
    ensures DistinctKeys(Put(lines, n, data)) && |lines| <= |Put(lines, n, data)| <= |lines| + 1
    ensures (n, data) in Put(lines, n, data)
    ensures forall l :: l in lines && l.0 != n ==> l in Put(lines, n, data)
  {
    var i := Find(lines, n);
    assert Put(lines, n, data)[i] == (n, data);
    forall l | l in lines && l.0 != n ensures l in Put(lines, n, data) {
      var k :| 0 <= k < |lines| && lines[k] == l;
      assert Put(lines, n, data)[k] == l;
    }
  }

  lemma {:induction false} FlatAt(dev: WB.Device, queue: seq<Line>, n: nat)
    requires DistinctKeys(queue)
    ensures forall i :: 0 <= i < |queue| && queue[i].0 == n ==> WB.Get(WB.Store(dev, queue), n) == queue[i].1
    ensures (forall i :: 0 <= i < |queue| ==> queue[i].0 != n) ==> WB.Get(WB.Store(dev, queue), n) == WB.Get(dev, n)
  {
    WB.StoredAt(dev, queue, n);
  }

  /** A window without any pending write is fresh. */
  lemma NothingPendingIsFresh(s: Store, n: nat, size: nat)
    requires DistinctKeys(s.queue)
    requires forall i :: 0 <= i < |s.queue| ==> !(n <= s.queue[i].0 < n + size)
    ensures FreshWindow(s, n, size)
  {
    forall k | n <= k < n + size ensures WB.Get(s.device, k) == WB.Get(Flat(s), k) {
      FlatAt(s.device, s.queue, k);
    }
  }

  lemma {:induction false} StoreMerged(dev: WB.Device, queue: seq<Line>, i: nat, data: Sector)
    requires i < |queue| && DistinctKeys(queue)
    ensures WB.Store(dev, queue[i := (queue[i].0, data)]) == WB.Store(dev, queue)[queue[i].0 := data]
  {
    var last := |queue| - 1;
    var queue' := queue[i := (queue[i].0, data)];
    if i == last {
      assert queue'[..last] == queue[..last];
    } else {
      StoreMerged(dev, queue[..last], i, data);
      assert queue'[..last] == queue[..last][i := (queue[i].0, data)];
    }
  }

  lemma EnqueueUpdates(s: Store, n: nat, data: Sector)
    requires DistinctKeys(s.queue) && 512 * |s.queue| <= QUEUE_BYTES
    ensures Flat(Enqueue(s, n, data)) == Flat(s)[n := data]
    ensures DistinctKeys(Enqueue(s, n, data).queue) && 512 * |Enqueue(s, n, data).queue| <= QUEUE_BYTES
    ensures Enqueue(s, n, data).cache == s.cache
    ensures forall l :: l in Enqueue(s, n, data).queue ==> l.0 == n || Listed(s.queue, l.0)
  {
    var i := Find(s.queue, n);
    if i < |s.queue| {
      StoreMerged(s.device, s.queue, i, data);
      forall l | l in Enqueue(s, n, data).queue ensures l.0 == n || Listed(s.queue, l.0) {
        var k :| 0 <= k < |s.queue| && Enqueue(s, n, data).queue[k] == l;
        assert k != i ==> s.queue[k].0 == l.0;
      }
    } else {
      var s' := if 512 * |s.queue| >= QUEUE_BYTES then Drain(s) else s;
      var queue := s'.queue + [(n, data)];
      assert queue[..|queue| - 1] == s'.queue && queue[|queue| - 1] == (n, data);
      assert WB.Store(s'.device, s'.queue) == Flat(s);
      assert Flat(Enqueue(s, n, data)) == WB.Store(s'.device, queue);
      forall l | l in s'.queue ensures Listed(s.queue, l.0) {
        var k :| 0 <= k < |s'.queue| && s'.queue[k] == l;
        assert s.queue[k].0 == l.0;
      }
    }
  }

  lemma KeepFlat(s: Store, n: nat, data: Sector)
    ensures Flat(Keep(s, n, data)) == Flat(s)
  {
  }

  /** Caching the right bytes keeps everything else coherent. */
  lemma KeepCoherent(s: Store, n: nat, data: Sector)
    requires DistinctKeys(s.cache) && |s.cache| <= CACHE_SIZE
    requires DistinctKeys(s.queue) && 512 * |s.queue| <= QUEUE_BYTES
    requires forall i :: 0 <= i < |s.cache| && s.cache[i].0 != n ==> s.cache[i].1 == WB.Get(Flat(s), s.cache[i].0)
    requires forall i :: 0 <= i < |s.queue| ==> s.queue[i].0 == n || Listed(s.cache, s.queue[i].0)
    requires data == WB.Get(Flat(s), n)
    ensures Coherent(Keep(s, n, data))
  {
    KeepFlat(s, n, data);
    var i := Find(s.cache, n);
    var s' := Keep(s, n, data);
    if i < CACHE_SIZE {
      assert s'.cache[i] == (n, data);
      forall q | 0 <= q < |s'.queue| ensures Listed(s'.cache, s'.queue[q].0) {
        if s'.queue[q].0 == n {
          assert s'.cache[i].0 == s'.queue[q].0;
        } else {
          var c :| 0 <= c < |s.cache| && s.cache[c].0 == s.queue[q].0;
          assert s'.cache[c].0 == s'.queue[q].0;
        }
      }
    }
  }

  /** write_sector updates one sector of the flat disk and keeps the cache coherent. */
  lemma WriteRefines(s: Store, n: nat, data: Sector)
    requires Coherent(s)
    ensures Coherent(Write(s, n, data)) && Flat(Write(s, n, data)) == Flat(s)[n := data]
  {
    EnqueueUpdates(s, n, data);
    var s' := Enqueue(s, n, data);
    KeepFlat(s', n, data);
    forall i | 0 <= i < |s'.queue| && s'.queue[i].0 != n ensures Listed(s'.cache, s'.queue[i].0) {
      assert s'.queue[i] in s'.queue;
      var k :| 0 <= k < |s.queue| && s.queue[k].0 == s'.queue[i].0;
      assert Listed(s.cache, s.queue[k].0);
    }
    KeepCoherent(s', n, data);
  }

  lemma DrainRefines(s: Store)
    requires Coherent(s)
    ensures Coherent(Drain(s)) && Flat(Drain(s)) == Flat(s) == Drain(s).device
  {
  }

  // ----- reading

  lemma {:induction false} FillFlat(s: Store, n: nat, batch: seq<Sector>)
    ensures Flat(Fill(s, n, batch)) == Flat(s)
    decreases |batch|
  {
    if batch != [] {
      FillFlat(s, n, batch[..|batch| - 1]);
      KeepFlat(Fill(s, n, batch[..|batch| - 1]), n + |batch| - 1, batch[|batch| - 1]);
    }
  }

  lemma {:induction false} FillCoherent(s: Store, n: nat, batch: seq<Sector>)
    requires Coherent(s)
    requires forall k :: 0 <= k < |batch| ==> batch[k] == WB.Get(Flat(s), n + k)
    ensures Coherent(Fill(s, n, batch))
    decreases |batch|
  {
    hide Flat, Keep, Find, WB.Get;
    if batch != [] {
      var before := batch[..|batch| - 1];
      FillCoherent(s, n, before);
      FillFlat(s, n, before);
      KeepCoherent(Fill(s, n, before), n + |before|, batch[|before|]);
    }
  }

  /** With room for the whole batch, the cache ends with exactly the batch's bytes for the window and its old lines elsewhere. */
  lemma {:induction false} FillHolds(s: Store, n: nat, batch: seq<Sector>)
    requires DistinctKeys(s.cache) && |s.cache| + |batch| <= CACHE_SIZE
    ensures var s' := Fill(s, n, batch);
            DistinctKeys(s'.cache) && |s'.cache| <= |s.cache| + |batch| && s'.queue == s.queue && s'.device == s.device
    ensures var s' := Fill(s, n, batch);
            forall k :: 0 <= k < |batch| ==> (n + k, batch[k]) in s'.cache
    ensures var s' := Fill(s, n, batch);
            forall l :: l in s.cache && !(n <= l.0 < n + |batch|) ==> l in s'.cache
    decreases |batch|
  {
    hide Find, Put, DistinctKeys;
    if batch != [] {
      var before := batch[..|batch| - 1];
      var last := |before|;
      FillHolds(s, n, before);
      var s1, s2 := Fill(s, n, before), Fill(s, n, batch);
      PutLine(s1.cache, n + last, batch[last]);
      forall k | 0 <= k < |batch| ensures (n + k, batch[k]) in s2.cache {
        if k < last {
          assert (n + k, before[k]) in s1.cache;
        }
      }
    }
  }

  /** A read never changes the flat disk; a hit or a fresh window answers from it and keeps coherence. */
  lemma ReadRefines(s: Store, n: nat, useCache: bool, readAhead: nat)
    requires Coherent(s)
    requires Hit(s, n, useCache) || FreshWindow(s, n, BatchSize(readAhead))
    ensures var (s', data) := Read(s, n, useCache, readAhead);
            Coherent(s') && Flat(s') == Flat(s) && data == WB.Get(Flat(s), n)
  {
    if !Hit(s, n, useCache) {
      var batch := Window(s.device, n, BatchSize(readAhead));
      FillFlat(s, n, batch);
      FillCoherent(s, n, batch);
    }
  }

  /** The index in a batch from which on its sectors are still cached afterwards: 0 unless the cache was emptied on the way. */
  function CutAt(s: Store, n: nat, batch: seq<Sector>): (cut: nat)
    ensures cut <= |batch|
    decreases |batch|
  {
    if batch == [] then 0
    else
      var before := batch[..|batch| - 1];
      if Find(Fill(s, n, before).cache, n + |before|) < CACHE_SIZE then CutAt(s, n, before) else |batch|
  }

  /** Put has the new line, and of the old ones those of other sectors. */
  lemma PutLines(lines: seq<Line>, n: nat, data: Sector)
    requires DistinctKeys(lines)
    ensures forall l :: l in Put(lines, n, data) ==> l == (n, data) || (l in lines && l.0 != n)
  {
    var i := Find(lines, n);
    forall l | l in Put(lines, n, data) ensures l == (n, data) || (l in lines && l.0 != n) {
      var k :| 0 <= k < |Put(lines, n, data)| && Put(lines, n, data)[k] == l;
    }
  }

  /** What the cache holds after a batch. */
  ghost predicate BatchCached(s: Store, n: nat, batch: seq<Sector>, s': Store, cut: nat) {
    && cut <= |batch| && DistinctKeys(s'.cache) && |s'.cache| <= CACHE_SIZE && s'.queue == (if cut == 0 then s.queue else [])
    && (forall k :: cut <= k < |batch| ==> (n + k, batch[k]) in s'.cache)
    && (forall l :: l in s'.cache ==> (cut == 0 && l in s.cache) || (n + cut <= l.0 < n + |batch| && l.1 == batch[l.0 - n]))
    && (cut == 0 ==> forall l :: l in s.cache && !(n <= l.0 < n + |batch|) ==> l in s'.cache)
  }

  lemma {:induction false} FillShape(s: Store, n: nat, batch: seq<Sector>)
    requires DistinctKeys(s.cache) && |s.cache| <= CACHE_SIZE
    ensures BatchCached(s, n, batch, Fill(s, n, batch), CutAt(s, n, batch))
    decreases |batch|
  {
    hide Find, DistinctKeys, BatchCached;
    if batch == [] {
      BatchCachedFirst(s, n);
    } else {
      FillShape(s, n, batch[..|batch| - 1]);
      BatchCachedNext(s, n, batch, Fill(s, n, batch[..|batch| - 1]), CutAt(s, n, batch[..|batch| - 1]));
    }
  }

  lemma BatchCachedFirst(s: Store, n: nat)
    requires DistinctKeys(s.cache) && |s.cache| <= CACHE_SIZE
    ensures BatchCached(s, n, [], s, 0)
  {
  }

  lemma BatchCachedNext(s: Store, n: nat, batch: seq<Sector>, s1: Store, cut: nat)
    requires batch != [] && BatchCached(s, n, batch[..|batch| - 1], s1, cut)
    ensures var last := |batch| - 1;
            var s' := Keep(s1, n + last, batch[last]);
            BatchCached(s, n, batch, s', if Find(s1.cache, n + last) < CACHE_SIZE then cut else |batch|)
  {
    hide Put, DistinctKeys, Find, BatchCached;
    var last := |batch| - 1;
    BatchCachedKeys(s, n, batch[..last], s1, cut);
    if Find(s1.cache, n + last) < CACHE_SIZE {
      PutLine(s1.cache, n + last, batch[last]);
      PutLines(s1.cache, n + last, batch[last]);
      PutSize(s1.cache, n + last, batch[last]);
      BatchCachedPut(s, n, batch, s1, cut, Put(s1.cache, n + last, batch[last]));
    } else {
      BatchCachedAnew(s, n, batch, Drain(s1).(cache := []));
    }
  }

  lemma BatchCachedKeys(s: Store, n: nat, batch: seq<Sector>, s': Store, cut: nat)
    requires BatchCached(s, n, batch, s', cut)
    ensures DistinctKeys(s'.cache) && |s'.cache| <= CACHE_SIZE
  {
  }

  lemma BatchCachedAnew(s: Store, n: nat, batch: seq<Sector>, s': Store)
    requires batch != [] && s'.cache == [] && s'.queue == []
    ensures BatchCached(s, n, batch, s', |batch|)
  {
  }

  lemma BatchCachedPut(s: Store, n: nat, batch: seq<Sector>, s1: Store, cut: nat, cache: seq<Line>)
    requires batch != [] && BatchCached(s, n, batch[..|batch| - 1], s1, cut) && DistinctKeys(cache) && |cache| <= CACHE_SIZE
    requires (n + (|batch| - 1), batch[|batch| - 1]) in cache
    requires forall l :: l in s1.cache && l.0 != n + |batch| - 1 ==> l in cache
    requires forall l :: l in cache ==> l == (n + (|batch| - 1), batch[|batch| - 1]) || (l in s1.cache && l.0 != n + |batch| - 1)
    ensures BatchCached(s, n, batch, s1.(cache := cache), cut)
  {
    hide DistinctKeys;
    var last := |batch| - 1;
    forall k | cut <= k < |batch| ensures (n + k, batch[k]) in cache {
      if k < last {
        assert (n + k, batch[..last][k]) in s1.cache;
      }
    }
  }

  lemma PutSize(lines: seq<Line>, n: nat, data: Sector)
    requires Find(lines, n) < CACHE_SIZE && |lines| <= CACHE_SIZE && DistinctKeys(lines)
    ensures |Put(lines, n, data)| <= CACHE_SIZE
  {
  }

  /**
   * Exactly when a miss keeps the cache coherent: when no pending write differs
   * from the device in that part of the window which is still cached afterwards,
   * the whole window if the cache has room for it.
   */
  lemma ReadExactly(s: Store, n: nat, useCache: bool, readAhead: nat)
    requires Coherent(s) && !Hit(s, n, useCache)
    ensures var size := BatchSize(readAhead);
            var cut := CutAt(s, n, Window(s.device, n, size));
            && (Coherent(Read(s, n, useCache, readAhead).0) <==> FreshWindow(s, n + cut, size - cut))
            && (|s.cache| + size <= CACHE_SIZE ==> cut == 0)
  {
    hide Find, DistinctKeys, WB.Get, Flat, Fill, CutAt, Coherent, BatchCached;
    var size := BatchSize(readAhead);
    var batch := Window(s.device, n, size);
    var s', cut := Fill(s, n, batch), CutAt(s, n, batch);
    CoherentKeys(s);
    FillShape(s, n, batch);
    FillFlat(s, n, batch);
    if |s.cache| + size <= CACHE_SIZE {
      RoomMeansNoCut(s, n, batch);
    }
    if FreshWindow(s, n + cut, size - cut) {
      FreshFill(s, n, size, s', cut);
    } else {
      var k :| n + cut <= k < n + size && WB.Get(s.device, k) != WB.Get(Flat(s), k);
      StaleFill(s, n, size, s', cut, k - n);
    }
  }

  lemma CoherentKeys(s: Store)
    requires Coherent(s)
    ensures DistinctKeys(s.cache) && |s.cache| <= CACHE_SIZE
  {
  }

  lemma FreshFill(s: Store, n: nat, size: nat, s': Store, cut: nat)
    requires Coherent(s) && BatchCached(s, n, Window(s.device, n, size), s', cut) && Flat(s') == Flat(s)
    requires cut <= size && FreshWindow(s, n + cut, size - cut)
    ensures Coherent(s')
  {
    hide DistinctKeys, WB.Get, Flat, Listed, Find;
    forall i | 0 <= i < |s'.cache| ensures s'.cache[i].1 == WB.Get(Flat(s'), s'.cache[i].0) {
      assert s'.cache[i] in s'.cache;
    }
    StillListed(s, n, Window(s.device, n, size), s', cut);
    NoKeys();
  }

  lemma StaleFill(s: Store, n: nat, size: nat, s': Store, cut: nat, k: nat)
    requires BatchCached(s, n, Window(s.device, n, size), s', cut) && Flat(s') == Flat(s)
    requires cut <= k < size && WB.Get(s.device, n + k) != WB.Get(Flat(s), n + k)
    ensures !Coherent(s')
  {
    hide DistinctKeys, WB.Get, Flat, Listed, Find;
    assert (n + k, Window(s.device, n, size)[k]) in s'.cache;
  }

  lemma NoKeys()
    ensures DistinctKeys([])
  {
  }

  lemma StillListed(s: Store, n: nat, batch: seq<Sector>, s': Store, cut: nat)
    requires Coherent(s) && BatchCached(s, n, batch, s', cut)
    ensures forall i :: 0 <= i < |s'.queue| ==> Listed(s'.cache, s'.queue[i].0)
  {
    hide DistinctKeys, Flat, WB.Get;
    forall i | 0 <= i < |s'.queue| ensures Listed(s'.cache, s'.queue[i].0) {
      var m := s.queue[i].0;
      assert Listed(s.cache, m);
      var k :| 0 <= k < |s.cache| && s.cache[k].0 == m;
      if n <= m < n + |batch| {
        assert (n + (m - n), batch[m - n]) in s'.cache;
      } else {
        assert s.cache[k] in s'.cache;
      }
    }
  }

  lemma {:induction false} RoomMeansNoCut(s: Store, n: nat, batch: seq<Sector>)
    requires DistinctKeys(s.cache) && |s.cache| + |batch| <= CACHE_SIZE
    ensures CutAt(s, n, batch) == 0
    decreases |batch|
  {
    hide Find, DistinctKeys;
    if batch != [] {
      RoomMeansNoCut(s, n, batch[..|batch| - 1]);
      FillHolds(s, n, batch[..|batch| - 1]);
    }
  }

  // ----- runs

  datatype Op = WriteOp(n: nat, data: Sector) | ReadOp(n: nat, useCache: bool, readAhead: nat) | SyncOp

  function Step(s: Store, op: Op): Store {
    match op
    case WriteOp(n, data) => Write(s, n, data)
    case ReadOp(n, useCache, readAhead) => Read(s, n, useCache, readAhead).0
    case SyncOp => Drain(s)
  }

  /** The sectors the reads of a run return, in order. */
  function Answers(s: Store, ops: seq<Op>): seq<Sector>
    decreases |ops|
  {
    if ops == [] then []
    else
      var rest := Answers(Step(s, ops[0]), ops[1..]);
      if ops[0].ReadOp? then [Read(s, ops[0].n, ops[0].useCache, ops[0].readAhead).1] + rest else rest
  }

  function End(s: Store, ops: seq<Op>): Store
    decreases |ops|
  {
    if ops == [] then s else End(Step(s, ops[0]), ops[1..])
  }

  /** The same run on a flat disk. */
  function FlatAnswers(dev: WB.Device, ops: seq<Op>): seq<Sector>
    decreases |ops|
  {
    if ops == [] then []
    else match ops[0]
      case WriteOp(n, data) => FlatAnswers(dev[n := data], ops[1..])
      case ReadOp(n, _, _) => [WB.Get(dev, n)] + FlatAnswers(dev, ops[1..])
      case SyncOp => FlatAnswers(dev, ops[1..])
  }

  function FlatEnd(dev: WB.Device, ops: seq<Op>): WB.Device
    decreases |ops|
  {
    if ops == [] then dev
    else FlatEnd(if ops[0].WriteOp? then dev[ops[0].n := ops[0].data] else dev, ops[1..])
  }

  /** No miss of the run reads ahead over a pending write. */
  predicate Clean(s: Store, ops: seq<Op>)
    decreases |ops|
  {
    ops != [] ==>
      && (ops[0].ReadOp? ==> Hit(s, ops[0].n, ops[0].useCache) || FreshWindow(s, ops[0].n, BatchSize(ops[0].readAhead)))
      && Clean(Step(s, ops[0]), ops[1..])
  }

  /** The cache, the queue and the read-ahead together are one flat disk. */
  lemma {:induction false} StoreIsFlatDisk(s: Store, ops: seq<Op>)
    requires Coherent(s) && Clean(s, ops)
    ensures Answers(s, ops) == FlatAnswers(Flat(s), ops)
    ensures Coherent(End(s, ops)) && Flat(End(s, ops)) == FlatEnd(Flat(s), ops)
    decreases |ops|
  {
    hide Flat, Coherent, FreshWindow, Write, Read, Drain, Hit, WB.Get;
    if ops != [] {
      match ops[0] {
        case WriteOp(n, data) => WriteRefines(s, n, data);
        case ReadOp(n, useCache, readAhead) => ReadRefines(s, n, useCache, readAhead);
        case SyncOp => DrainRefines(s);
      }
      StoreIsFlatDisk(Step(s, ops[0]), ops[1..]);
    }
  }

  // ----- clean runs, from the sector numbers alone

  /** The numbers of the cached and of the pending sectors. */
  datatype Keys = Keys(cached: set<nat>, pending: set<nat>)

  function Numbers(lines: seq<Line>): set<nat> {
    set i | 0 <= i < |lines| :: lines[i].0
  }

  function KeysOf(s: Store): Keys {
    Keys(Numbers(s.cache), Numbers(s.queue))
  }

  function KeepKeys(k: Keys, n: nat): Keys {
    if n in k.cached || |k.cached| < CACHE_SIZE then k.(cached := k.cached + {n}) else Keys({}, {})
  }

  function WriteKeys(k: Keys, n: nat): Keys {
    KeepKeys(k.(pending := (if n in k.pending || 512 * |k.pending| < QUEUE_BYTES then k.pending else {}) + {n}), n)
  }

  function FillKeys(k: Keys, n: nat, size: nat): Keys {
    if size == 0 then k else KeepKeys(FillKeys(k, n, size - 1), n + size - 1)
  }

  function StepKeys(k: Keys, op: Op): Keys {
    match op
    case WriteOp(n, _) => WriteKeys(k, n)
    case ReadOp(n, useCache, readAhead) => if useCache && n in k.cached then k else FillKeys(k, n, BatchSize(readAhead))
    case SyncOp => k.(pending := {})
  }

  /** Every read hits, or has no pending sector in its window. */
  predicate Tidy(k: Keys, ops: seq<Op>)
    decreases |ops|
  {
    ops != [] ==>
      && (ops[0].ReadOp? ==> (ops[0].useCache && ops[0].n in k.cached)
                             || forall m :: m in k.pending ==> !(ops[0].n <= m < ops[0].n + BatchSize(ops[0].readAhead)))
      && Tidy(StepKeys(k, ops[0]), ops[1..])
  }

  lemma {:induction false} NumbersCount(lines: seq<Line>)
    requires DistinctKeys(lines)
    ensures |Numbers(lines)| == |lines|
  {
    if lines != [] {
      var before, last := lines[..|lines| - 1], lines[|lines| - 1];
      NumbersCount(before);
      assert forall i :: 0 <= i < |before| ==> before[i] == lines[i];
      assert Numbers(lines) == Numbers(before) + {last.0};
    }
  }

  lemma InNumbers(lines: seq<Line>, n: nat)
    ensures n in Numbers(lines) <==> Find(lines, n) < |lines|
    ensures n in Numbers(lines) <==> Listed(lines, n)
  {
  }

  lemma PutNumbers(lines: seq<Line>, n: nat, data: Sector)
    ensures Numbers(Put(lines, n, data)) == Numbers(lines) + {n}
  {
    var i, after := Find(lines, n), Put(lines, n, data);
    assert after[i] == (n, data);
    forall m | m in Numbers(lines) ensures m in Numbers(after) {
      var k :| 0 <= k < |lines| && lines[k].0 == m;
      assert after[k].0 == m;
    }
    forall m | m in Numbers(after) ensures m in Numbers(lines) + {n} {
      var k :| 0 <= k < |after| && after[k].0 == m;
      assert k != i ==> lines[k].0 == m;
    }
  }

  /** The store's shape, which every step keeps, also one that spoils the cache. */
  predicate Shaped(s: Store) {
    DistinctKeys(s.cache) && |s.cache| <= CACHE_SIZE && DistinctKeys(s.queue) && 512 * |s.queue| <= QUEUE_BYTES
  }

  lemma KeepNumbers(s: Store, n: nat, data: Sector)
    requires Shaped(s)
    ensures Shaped(Keep(s, n, data)) && KeysOf(Keep(s, n, data)) == KeepKeys(KeysOf(s), n)
  {
    hide Put, Find;
    NumbersCount(s.cache);
    InNumbers(s.cache, n);
    NoKeys();
    if Find(s.cache, n) < CACHE_SIZE {
      PutNumbers(s.cache, n, data);
      PutLine(s.cache, n, data);
      PutSize(s.cache, n, data);
    }
  }

  lemma EnqueueNumbers(s: Store, n: nat, data: Sector)
    requires Shaped(s)
    ensures Shaped(Enqueue(s, n, data))
    ensures KeysOf(Enqueue(s, n, data)).cached == KeysOf(s).cached
    ensures var k := KeysOf(s);
            KeysOf(Enqueue(s, n, data)).pending ==
            (if n in k.pending || 512 * |k.pending| < QUEUE_BYTES then k.pending else {}) + {n}
  {
    NumbersCount(s.queue);
    InNumbers(s.queue, n);
    EnqueueUpdates(s, n, data);
    if Find(s.queue, n) < |s.queue| {
      PutNumbers(s.queue, n, data);
    } else {
      AppendedNumbers(s.queue, n, data);
      AppendedNumbers([], n, data);
      assert [] + [(n, data)] == [(n, data)];
    }
  }

  lemma AppendedNumbers(lines: seq<Line>, n: nat, data: Sector)
    ensures Numbers(lines + [(n, data)]) == Numbers(lines) + {n}
  {
    var after := lines + [(n, data)];
    assert after[|lines|] == (n, data);
    forall m | m in Numbers(lines) ensures m in Numbers(after) {
      var k :| 0 <= k < |lines| && lines[k].0 == m;
      assert after[k].0 == m;
    }
  }

  lemma {:induction false} FillNumbers(s: Store, n: nat, batch: seq<Sector>)
    requires Shaped(s)
    ensures Shaped(Fill(s, n, batch)) && KeysOf(Fill(s, n, batch)) == FillKeys(KeysOf(s), n, |batch|)
    decreases |batch|
  {
    hide Keep, KeepKeys, KeysOf, Shaped;
    if batch != [] {
      FillNumbers(s, n, batch[..|batch| - 1]);
      KeepNumbers(Fill(s, n, batch[..|batch| - 1]), n + |batch| - 1, batch[|batch| - 1]);
    }
  }

  /** The sector numbers of the next state follow from those of the state. */
  lemma StepNumbers(s: Store, op: Op)
    requires Shaped(s)
    ensures Shaped(Step(s, op)) && KeysOf(Step(s, op)) == StepKeys(KeysOf(s), op)
  {
    hide Keep, Enqueue, Fill, Find;
    match op
    case WriteOp(n, data) =>
      EnqueueNumbers(s, n, data);
      KeepNumbers(Enqueue(s, n, data), n, data);
    case ReadOp(n, useCache, readAhead) =>
      InNumbers(s.cache, n);
      FillNumbers(s, n, Window(s.device, n, BatchSize(readAhead)));
    case SyncOp =>
      NoKeys();
  }

  /** Every pending write changes what the device holds. */
  predicate Stirred(s: Store) {
    forall i :: 0 <= i < |s.queue| ==> s.queue[i].1 != WB.Get(s.device, s.queue[i].0)
  }

  predicate Stirring(s: Store, ops: seq<Op>)
    decreases |ops|
  {
    Stirred(s) && (ops != [] ==> Stirring(Step(s, ops[0]), ops[1..]))
  }

  /** A window with a pending sector in it is not fresh, when what is pending is a change. */
  lemma FreshNumbers(s: Store, n: nat, size: nat)
    requires DistinctKeys(s.queue)
    ensures (forall m :: m in Numbers(s.queue) ==> !(n <= m < n + size)) ==> FreshWindow(s, n, size)
    ensures Stirred(s) && FreshWindow(s, n, size) ==> forall m :: m in Numbers(s.queue) ==> !(n <= m < n + size)
  {
    hide WB.Get, Flat;
    if forall m :: m in Numbers(s.queue) ==> !(n <= m < n + size) {
      forall i | 0 <= i < |s.queue| ensures !(n <= s.queue[i].0 < n + size) {
        assert s.queue[i].0 in Numbers(s.queue);
      }
      NothingPendingIsFresh(s, n, size);
    } else if Stirred(s) {
      var m :| m in Numbers(s.queue) && n <= m < n + size;
      var i :| 0 <= i < |s.queue| && s.queue[i].0 == m;
      PendingAt(s, i);
    }
  }

  lemma PendingAt(s: Store, i: nat)
    requires DistinctKeys(s.queue) && i < |s.queue|
    ensures WB.Get(Flat(s), s.queue[i].0) == s.queue[i].1
  {
    FlatAt(s.device, s.queue, s.queue[i].0);
  }

  /**
   * A run whose sector numbers are tidy is clean; and when no write puts back what
   * the device holds, only such a run is.
   */
  lemma {:induction false} TidyIsClean(s: Store, ops: seq<Op>)
    requires Coherent(s)
    ensures Tidy(KeysOf(s), ops) ==> Clean(s, ops)
    ensures Stirring(s, ops) && Clean(s, ops) ==> Tidy(KeysOf(s), ops)
    decreases |ops|
  {
    hide Flat, Coherent, Write, Read, Drain, FreshWindow, Hit, KeysOf, StepKeys, Stirred, Shaped, Step, WB.Get;
    if ops != [] {
      CoherentShaped(s);
      StepNumbers(s, ops[0]);
      if ops[0].ReadOp? {
        ReadTidy(s, ops[0].n, ops[0].useCache, ops[0].readAhead);
      }
      if !ops[0].ReadOp? || Hit(s, ops[0].n, ops[0].useCache) || FreshWindow(s, ops[0].n, BatchSize(ops[0].readAhead)) {
        StepCoherent(s, ops[0]);
        TidyIsClean(Step(s, ops[0]), ops[1..]);
      }
    }
  }

  lemma CoherentShaped(s: Store)
    requires Coherent(s)
    ensures Shaped(s)
  {
  }

  lemma StepCoherent(s: Store, op: Op)
    requires Coherent(s) && (op.ReadOp? ==> Hit(s, op.n, op.useCache) || FreshWindow(s, op.n, BatchSize(op.readAhead)))
    ensures Coherent(Step(s, op))
  {
    hide Flat, Coherent, Write, Read, Drain, FreshWindow, Hit;
    match op
    case WriteOp(n, data) => WriteRefines(s, n, data);
    case ReadOp(n, useCache, readAhead) => ReadRefines(s, n, useCache, readAhead);
    case SyncOp => DrainRefines(s);
  }

  lemma ReadTidy(s: Store, n: nat, useCache: bool, readAhead: nat)
    requires Shaped(s)
    ensures var k := KeysOf(s);
            var tidy := (useCache && n in k.cached) || forall m :: m in k.pending ==> !(n <= m < n + BatchSize(readAhead));
            && (tidy ==> Hit(s, n, useCache) || FreshWindow(s, n, BatchSize(readAhead)))
            && (Stirred(s) && (Hit(s, n, useCache) || FreshWindow(s, n, BatchSize(readAhead))) ==> tidy)
  {
    hide Find, FreshWindow, Stirred;
    InNumbers(s.cache, n);
    FreshNumbers(s, n, BatchSize(readAhead));
  }

  /** A tidy run from the empty store answers and ends as a flat disk does. */
  lemma TidyRunIsFlat(dev: WB.Device, ops: seq<Op>)
    requires Tidy(Keys({}, {}), ops)
    ensures Answers(Store([], [], dev), ops) == FlatAnswers(dev, ops)
    ensures Flat(End(Store([], [], dev), ops)) == FlatEnd(dev, ops)
  {
    var s := Store([], [], dev);
    assert KeysOf(s) == Keys({}, {});
    TidyIsClean(s, ops);
    StoreIsFlatDisk(s, ops);
  }

  /** With sector 1 still pending, a read of sector 0 lets sector 1 read as before its write. */
  lemma StaleLine(data: Sector)
    requires data != ZeroSector()
    ensures var s := Store([(1, data)], [(1, data)], map[]);
            var (s', first) := Read(s, 0, true, 0);
            !Hit(s, 0, true) && !FreshWindow(s, 0, 16) && first == ZeroSector() && Read(s', 1, true, 0).1 == ZeroSector()
  {
    hide Keep, Put;
    var s := Store([(1, data)], [(1, data)], map[]);
    var batch := Window(s.device, 0, 16);
    FillHolds(s, 0, batch);
    var s' := Read(s, 0, true, 0).0;
    assert (0 + 1, batch[1]) in s'.cache;
    var k :| 0 <= k < |s'.cache| && s'.cache[k] == (1, batch[1]);
    assert Find(s'.cache, 1) == k;
    FlatAt(s.device, s.queue, 1);
    assert s.queue[0].0 == 1 && WB.Get(s.device, 1) == ZeroSector();
  }

  /** StoreIsFlatDisk fails without Clean: a write to sector 1, a read of sector 0, a read of sector 1. */
  lemma StaleReadExample(data: Sector)
    requires data != ZeroSector()
    ensures var s := Store([], [], map[]);
            var ops := [WriteOp(1, data), ReadOp(0, true, 0), ReadOp(1, true, 0)];
            Coherent(s) && !Clean(s, ops)
            && Answers(s, ops) == [ZeroSector(), ZeroSector()] && FlatAnswers(Flat(s), ops) == [ZeroSector(), data]
  {
    hide Read, FreshWindow, Hit;
    var s := Store([], [], map[]);
    var ops := [WriteOp(1, data), ReadOp(0, true, 0), ReadOp(1, true, 0)];
    StaleLine(data);
    var s1 := Store([(1, data)], [(1, data)], map[]);
    assert Step(s, ops[0]) == s1;
    assert ops[1..] == [ops[1], ops[2]] && ops[1..][1..] == [ops[2]] && [ops[2]][1..] == [];
    assert Answers(Step(s1, ops[1]), [ops[2]]) == [ZeroSector()];
    assert FlatAnswers(map[1 := data], [ops[2]]) == [data];
    assert FlatAnswers(map[1 := data], ops[1..]) == [ZeroSector(), data];
  }

  // ----- the program itself

  function Lines(keys: seq<nat>, data: seq<Sector>): (lines: seq<Line>)
    requires |keys| == |data|
    ensures |lines| == |keys| && forall i :: 0 <= i < |keys| ==> lines[i] == (keys[i], data[i])
  {
    seq(|keys|, i requires 0 <= i < |keys| => (keys[i], data[i]))
  }

  /** The jobs execute_write_queue queues: slot i of the transfer buffer goes to the i-th sector number. */
  function WriteJobs(keys: seq<nat>): (jobs: seq<WB.Job>)
    ensures |jobs| == |keys| && forall i :: 0 <= i < |keys| ==> jobs[i] == WB.Job(WB.BUFFER_ADDRESS + 512 * i, keys[i])
  {
    seq(|keys|, i requires 0 <= i < |keys| => WB.Job(WB.BUFFER_ADDRESS + 512 * i, keys[i]))
  }

  lemma JobsAreLines(keys: seq<nat>, buffer: seq<Sector>)
    requires |keys| <= |buffer|
    ensures forall i :: 0 <= i < |keys| ==> WB.InBuffer(WriteJobs(keys)[i], buffer)
    ensures WB.Wanted(WriteJobs(keys), buffer) == Lines(keys, buffer[..|keys|])
  {
    forall i | 0 <= i < |keys|
      ensures WB.InBuffer(WriteJobs(keys)[i], buffer) && WB.JobData(WriteJobs(keys)[i], buffer) == buffer[i]
    {
      assert WriteJobs(keys)[i].address - WB.BUFFER_ADDRESS == 512 * i;
    }
  }

  class SectorCache {
    const cacheKeys: array<nat>
    const cacheData: array<Sector>
    var cacheCount: nat
    const queueKeys: array<nat>
    const queueData: array<Sector>
    var queueCount: nat
    var bufferOffset: nat
    var batchCounter: byte
    var device: WB.Device

    ghost const Repr: set<object>

    ghost predicate Valid()
      reads this, Repr
    {
      && Repr == {this, cacheKeys, cacheData, queueKeys, queueData}
      && cacheKeys != queueKeys && cacheData != queueData
      && cacheKeys.Length == cacheData.Length == CACHE_SIZE
      && queueKeys.Length == queueData.Length == 128
      && cacheCount <= CACHE_SIZE && queueCount <= 64 && bufferOffset == 512 * queueCount
    }

    ghost function State(): Store
      reads this, Repr
      requires Valid()
    {
      Store(Lines(cacheKeys[..cacheCount], cacheData[..cacheCount]), Lines(queueKeys[..queueCount], queueData[..queueCount]), device)
    }

    constructor (dev: WB.Device)
      ensures Valid() && fresh(Repr) && State() == Store([], [], dev)
    {
      var ck := new nat[CACHE_SIZE](_ => 0);
      var cd := new Sector[CACHE_SIZE](_ => ZeroSector());
      var qk := new nat[128](_ => 0);
      var qd := new Sector[128](_ => ZeroSector());
      cacheKeys, cacheData, queueKeys, queueData := ck, cd, qk, qd;
      cacheCount, queueCount, bufferOffset, batchCounter, device := 0, 0, 0, 0, dev;
      Repr := {this, ck, cd, qk, qd};
    }

    /** The linear searches over sector_cache_sectors and write_sector_numbers. */
    method Search(keys: array<nat>, data: array<Sector>, count: nat, n: nat) returns (i: nat)
      requires count <= keys.Length == data.Length
      ensures i == Find(Lines(keys[..count], data[..count]), n)
    {
      ghost var lines := Lines(keys[..count], data[..count]);
      i := 0;
      while i < count
        invariant i <= count && forall k :: 0 <= k < i ==> lines[k].0 != n
      {
        if keys[i] == n {
          break;
        }
        i := i + 1;
      }
    }

    /** execute_write_queue, down to the packets; the receiver carries them out. */
    method ExecuteWriteQueue()
      requires Valid()
      modifies this`device, this`queueCount, this`bufferOffset, this`batchCounter
      ensures Valid() && State() == Drain(old(State()))
      ensures batchCounter == (old(batchCounter) + WB.RunCount(WriteJobs(old(queueKeys[..queueCount])))) % 0x100
    {
      hide WB.Wanted, WB.InBuffer, WB.Targets, WB.IsBatch, WB.Concat, WB.RunCount;
      if queueCount == 0 {
        WB.NoRuns(WriteJobs(queueKeys[..queueCount]));
        return;
      }
      var jobs: seq<WB.Job> := [];
      var i := 0;
      while i < queueCount
        invariant i <= queueCount && jobs == WriteJobs(queueKeys[..i])
      {
        jobs := jobs + [WB.Job(WB.BUFFER_ADDRESS + 512 * i, queueKeys[i])];
        i := i + 1;
      }
      JobsAreLines(queueKeys[..queueCount], queueData[..]);
      assert queueData[..][..queueCount] == queueData[..queueCount];
      var batches := WB.ProcessJobs(jobs, queueData[..], batchCounter);
      device := WB.Store(device, WB.Targets(WB.Concat(batches)));
      batchCounter := (batchCounter + |batches|) % 0x100;
      queueCount, bufferOffset := 0, 0;
    }

    /** queue_write_sector */
    method QueueWriteSector(n: nat, data: Sector)
      requires Valid()
      modifies this`device, this`queueCount, this`bufferOffset, this`batchCounter, queueKeys, queueData
      ensures Valid() && State() == Enqueue(old(State()), n, data)
    {
      hide Find, WB.Store;
      var i := Search(queueKeys, queueData, queueCount, n);
      if i < queueCount {
        queueData[i] := data;
        assert State().queue == Put(old(State()).queue, n, data);
        return;
      }
      if bufferOffset >= QUEUE_BYTES {
        ExecuteWriteQueue();
      }
      Append(n, data);
    }

    /** The end of queue_write_sector: a new entry behind the queue. */
    method Append(n: nat, data: Sector)
      requires Valid() && queueCount < 64
      modifies this`queueCount, this`bufferOffset, queueKeys, queueData
      ensures Valid() && State() == old(State()).(queue := old(State()).queue + [(n, data)])
    {
      ghost var queue := State().queue;
      queueData[bufferOffset / 512] := data;
      bufferOffset := bufferOffset + 512;
      queueKeys[queueCount] := n;
      queueCount := queueCount + 1;
      assert State().queue == queue + [(n, data)];
    }

    /** The cache update of read_sector and write_sector. */
    method StoreInCache(n: nat, data: Sector)
      requires Valid()
      modifies Repr
      ensures Valid() && State() == Keep(old(State()), n, data)
    {
      var i := Search(cacheKeys, cacheData, cacheCount, n);
      if i < CACHE_SIZE {
        cacheData[i] := data;
        cacheKeys[i] := n;
        if cacheCount < i + 1 {
          cacheCount := i + 1;
        }
        assert State().cache == Keep(old(State()), n, data).cache;
      } else {
        ExecuteWriteQueue();
        cacheCount := 0;
      }
    }

    method WriteSector(n: nat, data: Sector)
      requires Valid()
      modifies Repr
      ensures Valid() && State() == Write(old(State()), n, data)
    {
      QueueWriteSector(n, data);
      StoreInCache(n, data);
    }

    /** A batch size above 255 makes the read job give up, so the read-ahead is at most that. */
    method ReadSector(n: nat, useCache: bool, readAhead: nat) returns (data: Sector)
      requires Valid() && readAhead <= 255
      modifies Repr
      ensures Valid() && (State(), data) == Read(old(State()), n, useCache, readAhead)
    {
      hide Keep, Find, Put, Drain, WB.Get, WB.Store;
      if useCache {
        var i := Search(cacheKeys, cacheData, cacheCount, n);
        if i < cacheCount {
          return cacheData[i];
        }
      }
      var size := BatchSize(readAhead);
      var received := Window(device, n, size);
      var k := 0;
      while k < size
        invariant k <= size && Valid()
        invariant State() == Fill(old(State()), n, received[..k])
      {
        assert received[..k + 1][..k] == received[..k];
        StoreInCache(n + k, received[k]);
        k := k + 1;
      }
      assert received[..k] == received;
      data := received[0];
    }
  }
}
