/**
 * Queued sector writes on their way to the device: process_jobs_ethernet groups
 * them into runs of consecutive sectors and sends one packet per sector.
 */
module WriteBatches {
  import opened Bytes

  /** Sectors of the device by number; a sector that is not in the map is zero. */
  type Device = map<nat, Sector>

  function Get(dev: Device, n: nat): Sector {
    if n in dev then dev[n] else ZeroSector()
  }

  /** A physical write job: a memory address in the transfer buffer and a sector number. */
  datatype Job = Job(address: nat, sector: nat)

  /** The fields of a write packet: batch id, batch size - 1, slot, start sector, data. */
  datatype Packet = Packet(batchId: byte, last: byte, slot: byte, start: nat, data: Sector)

  const BUFFER_ADDRESS: nat := 0x50000

  /** What a packet asks the device to do. */
  function Target(p: Packet): (nat, Sector) {
    (p.start + p.slot as nat, p.data)
  }

  function Targets(ps: seq<Packet>): (ts: seq<(nat, Sector)>)
    ensures |ts| == |ps| && forall i :: 0 <= i < |ps| ==> ts[i] == Target(ps[i])
  {
    seq(|ps|, i requires 0 <= i < |ps| => Target(ps[i]))
  }

  /** A job's data lies in the buffer. */
  predicate InBuffer(job: Job, buffer: seq<Sector>) {
    && BUFFER_ADDRESS <= job.address && (job.address - BUFFER_ADDRESS) % 512 == 0
    && (job.address - BUFFER_ADDRESS) / 512 < |buffer|
  }

  function JobData(job: Job, buffer: seq<Sector>): Sector
    requires InBuffer(job, buffer)
  {
    buffer[(job.address - BUFFER_ADDRESS) / 512]
  }

  /** What the queued jobs ask for. */
  function Wanted(jobs: seq<Job>, buffer: seq<Sector>): (ts: seq<(nat, Sector)>)
    requires forall i :: 0 <= i < |jobs| ==> InBuffer(jobs[i], buffer)
    ensures |ts| == |jobs| && forall i :: 0 <= i < |jobs| ==> ts[i] == (jobs[i].sector, JobData(jobs[i], buffer))
  {
    seq(|jobs|, i requires 0 <= i < |jobs| => (jobs[i].sector, JobData(jobs[i], buffer)))
  }

  /** How many jobs from i on name consecutive sectors; the look-ahead of process_jobs_ethernet. */
  method BatchSize(jobs: seq<Job>, i: nat) returns (size: nat)
    requires i < |jobs|
    ensures 1 <= size <= 257 && i + size <= |jobs|
    ensures forall k :: i <= k < i + size ==> jobs[k].sector == jobs[i].sector + (k - i)
    ensures size <= 256 && i + size < |jobs| ==> jobs[i + size].sector != jobs[i].sector + size
  {
    var sectorNumber := jobs[i].sector;
    size := 1;
    var j := i + 1;
    while j < |jobs| && size <= 256
      invariant 1 <= size <= 257 && j == i + size <= |jobs| && sectorNumber == jobs[i].sector + size - 1
      invariant forall k :: i <= k < j ==> jobs[k].sector == jobs[i].sector + (k - i)
    {
      if jobs[j].sector != sectorNumber + 1 {
        break;
      }
      sectorNumber := sectorNumber + 1;
      size := size + 1;
      j := j + 1;
    }
  }

  /** process_ethernet_write_sectors_job: the packets of one batch. */
  method SendBatch(jobs: seq<Job>, buffer: seq<Sector>, batchCounter: byte) returns (packets: seq<Packet>)
    requires 1 <= |jobs| <= 256
    requires forall i :: 0 <= i < |jobs| ==> InBuffer(jobs[i], buffer) && jobs[i].sector == jobs[0].sector + i
    ensures Targets(packets) == Wanted(jobs, buffer)
    ensures forall i :: 0 <= i < |packets| ==> packets[i].batchId == batchCounter && packets[i].last == |jobs| - 1
                                               && packets[i].slot == i && packets[i].start == jobs[0].sector
  {
    packets := [];
    var i := 0;
    while i < |jobs|
      invariant i == |packets| <= |jobs|
      invariant forall k :: 0 <= k < i ==> packets[k] == Packet(batchCounter, |jobs| - 1, k, jobs[0].sector, JobData(jobs[k], buffer))
    {
      packets := packets + [Packet(batchCounter, (|jobs| - 1) % 0x100, i % 0x100, jobs[0].sector, JobData(jobs[i], buffer))];
      i := i + 1;
    }
  }

  /**
   * The write branch of process_jobs_ethernet.  The queue counter is one byte, so
   * there are fewer than 256 jobs.  The packets, read as (start sector + slot,
   * data), are the queued jobs in order.
   */
  method ProcessJobs(jobs: seq<Job>, buffer: seq<Sector>, batchCounter: byte) returns (batches: seq<seq<Packet>>)
    requires |jobs| < 256 && forall i :: 0 <= i < |jobs| ==> InBuffer(jobs[i], buffer)
    ensures Targets(Concat(batches)) == Wanted(jobs, buffer)
    ensures forall b :: 0 <= b < |batches| ==> IsBatch(batches[b]) && batches[b][0].batchId == (batchCounter + b) % 0x100
    ensures |batches| == RunCount(jobs)
  {
    hide InBuffer, JobData, Target, Targets, Wanted, Concat;
    batches := [];
    NothingSent(jobs, buffer);
    var i := 0;
    while i < |jobs|
      invariant i <= |jobs| && |batches| == RunCount(jobs[..i])
      invariant 0 < i < |jobs| ==> jobs[i].sector != jobs[i - 1].sector + 1
      invariant Targets(Concat(batches)) == Wanted(jobs[..i], buffer)
      invariant forall b :: 0 <= b < |batches| ==> IsBatch(batches[b]) && batches[b][0].batchId == (batchCounter + b) % 0x100
    {
      var size := BatchSize(jobs, i);
      var packets := SendBatch(jobs[i..i + size], buffer, (batchCounter + |batches|) % 0x100);
      BatchJoins(batches, packets, jobs, i, i + size, buffer);
      SentBatch(packets, jobs[i..i + size], buffer, (batchCounter + |batches|) % 0x100);
      OneRunMore(jobs, i, size);
      batches := batches + [packets];
      i := i + size;
    }
    assert jobs[..i] == jobs;
  }

  /** How many runs of consecutive sectors the jobs fall into. */
  function RunCount(jobs: seq<Job>): nat {
    var n := |jobs|;
    if n == 0 then 0
    else RunCount(jobs[..n - 1]) + if n > 1 && jobs[n - 1].sector == jobs[n - 2].sector + 1 then 0 else 1
  }

  lemma NoRuns(jobs: seq<Job>)
    requires |jobs| == 0
    ensures RunCount(jobs) == 0
  {
  }

  lemma {:induction false} OneRunMore(jobs: seq<Job>, i: nat, size: nat)
    requires 0 < size && i + size <= |jobs| && (i > 0 ==> jobs[i].sector != jobs[i - 1].sector + 1)
    requires forall k :: i <= k < i + size ==> jobs[k].sector == jobs[i].sector + (k - i)
    ensures RunCount(jobs[..i + size]) == RunCount(jobs[..i]) + 1
    decreases size
  {
    var n := i + size;
    assert jobs[..n][..n - 1] == jobs[..n - 1];
    if size > 1 {
      OneRunMore(jobs, i, size - 1);
    }
  }

  lemma NothingSent(jobs: seq<Job>, buffer: seq<Sector>)
    requires forall i :: 0 <= i < |jobs| ==> InBuffer(jobs[i], buffer)
    ensures Targets(Concat([])) == Wanted(jobs[..0], buffer)
  {
  }

  lemma BatchJoins(batches: seq<seq<Packet>>, packets: seq<Packet>, jobs: seq<Job>, i: nat, j: nat, buffer: seq<Sector>)
    requires forall i :: 0 <= i < |jobs| ==> InBuffer(jobs[i], buffer)
    requires i <= j <= |jobs| && Targets(Concat(batches)) == Wanted(jobs[..i], buffer) && Targets(packets) == Wanted(jobs[i..j], buffer)
    ensures Targets(Concat(batches + [packets])) == Wanted(jobs[..j], buffer)
  {
    hide Concat, InBuffer;
    ConcatOne(batches, packets);
    TargetsConcat(Concat(batches), packets);
    assert jobs[..j] == jobs[..i] + jobs[i..j];
  }

  lemma SentBatch(packets: seq<Packet>, jobs: seq<Job>, buffer: seq<Sector>, batchCounter: byte)
    requires 1 <= |jobs| <= 256 && forall i :: 0 <= i < |jobs| ==> InBuffer(jobs[i], buffer)
    requires Targets(packets) == Wanted(jobs, buffer)
    requires forall i :: 0 <= i < |packets| ==> packets[i].batchId == batchCounter && packets[i].last == |jobs| - 1
    requires forall i :: 0 <= i < |packets| ==> packets[i].slot == i && packets[i].start == jobs[0].sector
    ensures IsBatch(packets) && packets[0].batchId == batchCounter
  {
    assert |packets| == |Targets(packets)| == |jobs|;
  }

  /** A batch names consecutive sectors, slot by slot. */
  predicate IsBatch(ps: seq<Packet>) {
    && 1 <= |ps| <= 256
    && forall i :: 0 <= i < |ps| ==> ps[i].slot == i && ps[i].start == ps[0].start && ps[i].last == |ps| - 1 && ps[i].batchId == ps[0].batchId
  }

  function Concat<T>(ss: seq<seq<T>>): seq<T> {
    if ss == [] then [] else Concat(ss[..|ss| - 1]) + ss[|ss| - 1]
  }

  lemma ConcatOne<T>(ss: seq<seq<T>>, s: seq<T>)
    ensures Concat(ss + [s]) == Concat(ss) + s
  {
    assert (ss + [s])[..|ss|] == ss;
  }

  // ----- what the device makes of them

  function Store(dev: Device, ts: seq<(nat, Sector)>): Device {
    if ts == [] then dev else Store(dev, ts[..|ts| - 1])[ts[|ts| - 1].0 := ts[|ts| - 1].1]
  }

  lemma {:induction false} StoreConcat(dev: Device, a: seq<(nat, Sector)>, b: seq<(nat, Sector)>)
    ensures Store(dev, a + b) == Store(Store(dev, a), b)
  {
    if b == [] {
      assert a + b == a;
    } else {
      assert (a + b)[..|a + b| - 1] == a + b[..|b| - 1];
      StoreConcat(dev, a, b[..|b| - 1]);
    }
  }

  /** The result of storing distinct sectors does not depend on how often and in what order they arrive. */
  lemma {:induction false} StoredAt(dev: Device, ts: seq<(nat, Sector)>, n: nat)
    requires forall i, j :: 0 <= i < |ts| && 0 <= j < |ts| && ts[i].0 == ts[j].0 ==> ts[i].1 == ts[j].1
    ensures forall i :: 0 <= i < |ts| && ts[i].0 == n ==> n in Store(dev, ts) && Store(dev, ts)[n] == ts[i].1
    ensures (forall i :: 0 <= i < |ts| ==> ts[i].0 != n) ==> (n in Store(dev, ts) <==> n in dev) && (n in dev ==> Store(dev, ts)[n] == dev[n])
  {
    if ts != [] {
      StoredAt(dev, ts[..|ts| - 1], n);
    }
  }

  predicate SamePackets(batch: seq<Packet>, delivered: seq<Packet>) {
    (forall p :: p in delivered ==> p in batch) && (forall p :: p in batch ==> p in delivered)
  }

  /**
   * Every packet of a batch arrives at least once, in any order, and nothing else
   * arrives: the device ends as if each had arrived once and in order.
   */
  lemma DeliveryIsIdempotent(dev: Device, batch: seq<Packet>, delivered: seq<Packet>)
    requires IsBatch(batch)
    requires SamePackets(batch, delivered)
    ensures Store(dev, Targets(delivered)) == Store(dev, Targets(batch))
  {
    var a, b := Targets(delivered), Targets(batch);
    forall i, j | 0 <= i < |a| && 0 <= j < |b| && a[i].0 == b[j].0 ensures a[i].1 == b[j].1 {
      assert delivered[i] in batch;
      var k :| 0 <= k < |batch| && batch[k] == delivered[i];
      assert k == j;
    }
    forall i, j | 0 <= i < |a| && 0 <= j < |a| && a[i].0 == a[j].0 ensures a[i].1 == a[j].1 {
      assert delivered[i] in batch;
      var k :| 0 <= k < |batch| && batch[k] == delivered[i];
      assert a[i] == b[k];
    }
    forall n: nat ensures n in Store(dev, a) <==> n in Store(dev, b)
      ensures n in Store(dev, a) ==> Store(dev, a)[n] == Store(dev, b)[n]
    {
      StoredAt(dev, a, n);
      StoredAt(dev, b, n);
      if i :| 0 <= i < |a| && a[i].0 == n {
        assert delivered[i] in batch;
        var k :| 0 <= k < |batch| && batch[k] == delivered[i];
        assert b[k].0 == n;
      } else {
        forall k | 0 <= k < |b| ensures b[k].0 != n {
          assert batch[k] in delivered;
          var i :| 0 <= i < |delivered| && delivered[i] == batch[k];
          assert a[i] == b[k];
        }
      }
    }
  }

  lemma TargetsConcat(a: seq<Packet>, b: seq<Packet>)
    ensures Targets(a + b) == Targets(a) + Targets(b)
  {
  }

  /** The same for all batches of a queue, each waited for before the next is sent. */
  lemma {:induction false} QueueDelivered(dev: Device, batches: seq<seq<Packet>>, delivered: seq<seq<Packet>>)
    requires |delivered| == |batches|
    requires forall b :: 0 <= b < |batches| ==> IsBatch(batches[b]) && SamePackets(batches[b], delivered[b])
    ensures Store(dev, Targets(Concat(delivered))) == Store(dev, Targets(Concat(batches)))
  {
    if batches != [] {
      var n := |batches| - 1;
      QueueDelivered(dev, batches[..n], delivered[..n]);
      TargetsConcat(Concat(batches[..n]), batches[n]);
      TargetsConcat(Concat(delivered[..n]), delivered[n]);
      StoreConcat(dev, Targets(Concat(batches[..n])), Targets(batches[n]));
      StoreConcat(dev, Targets(Concat(delivered[..n])), Targets(delivered[n]));
      DeliveryIsIdempotent(Store(dev, Targets(Concat(batches[..n]))), batches[n], delivered[n]);
    }
  }
}
