/**
 * FAT updates as accesses to the sector store: what the loops of the file layer that
 * free a chain and link a block read and write, and when cache, queue and read-ahead
 * carry it out as a flat disk would.
 */
module FatTraffic {
  import opened Bytes
  import opened Chains
  import opened Volume
  import opened Linking
  import opened SectorStore
  import WB = WriteBatches

  /** The sectors before the data area, as a device holds them. */
  function Front(dev: WB.Device, g: Geometry): seq<Sector> {
    Window(dev, 0, g.FirstDataSector())
  }

  /** Both FATs of the device hold fat. */
  ghost predicate Tabled(g: Geometry, dev: WB.Device, fat: Fat) {
    FatsHold(g, Front(dev, g), fat)
  }

  /** The sector of FAT1 with entry c in it, and that sector with another entry. */
  function EntrySector(g: Geometry, c: nat): nat {
    g.Fat1() + c / 128
  }

  function Updated(dev: WB.Device, g: Geometry, c: nat, v: nat): Sector {
    PutLe32(WB.Get(dev, EntrySector(g, c)), EntryOffset(c), v)
  }

  /** The accesses of set_fat_cluster_ptr: the sector of FAT1 is read, changed, and written to both FATs. */
  function SetOps(dev: WB.Device, g: Geometry, c: nat, v: nat): seq<Op> {
    [ReadOp(EntrySector(g, c), true, 0), WriteOp(EntrySector(g, c), Updated(dev, g, c, v)),
     WriteOp(g.Fat2() + c / 128, Updated(dev, g, c, v))]
  }

  /** One turn of a loop: chained_cluster first, if it follows a chain, then set_fat_cluster_ptr. */
  function TurnOps(dev: WB.Device, g: Geometry, c: nat, v: nat, follow: bool): seq<Op> {
    (if follow then [ReadOp(EntrySector(g, c), true, 0)] else []) + SetOps(dev, g, c, v)
  }

  function AfterTurn(dev: WB.Device, g: Geometry, c: nat, v: nat): WB.Device {
    dev[EntrySector(g, c) := Updated(dev, g, c, v)][g.Fat2() + c / 128 := Updated(dev, g, c, v)]
  }

  /** An entry and its new value. */
  type Change = (nat, nat)

  function ChangeOps(dev: WB.Device, g: Geometry, us: seq<Change>, follow: bool): seq<Op>
    decreases |us|
  {
    if us == [] then []
    else TurnOps(dev, g, us[0].0, us[0].1, follow) + ChangeOps(AfterTurn(dev, g, us[0].0, us[0].1), g, us[1..], follow)
  }

  function AfterChanges(dev: WB.Device, g: Geometry, us: seq<Change>): WB.Device
    decreases |us|
  {
    if us == [] then dev else AfterChanges(AfterTurn(dev, g, us[0].0, us[0].1), g, us[1..])
  }

  function Changed(fat: Fat, us: seq<Change>): (r: Fat)
    requires forall i :: 0 <= i < |us| ==> us[i].0 < |fat|
    ensures |r| == |fat|
    decreases |us|
  {
    if us == [] then fat else Changed(fat[us[0].0 := us[0].1], us[1..])
  }

  // ----- on a flat disk

  lemma FrontUpdated(dev: WB.Device, g: Geometry, n: nat, sector: Sector)
    requires n < g.FirstDataSector()
    ensures Front(dev[n := sector], g) == Front(dev, g)[n := sector]
  {
  }

  lemma TurnSets(dev: WB.Device, g: Geometry, fat: Fat, c: nat, v: nat)
    requires Tabled(g, dev, fat) && c < |fat| && v < 0x1_0000_0000
    ensures Tabled(g, AfterTurn(dev, g, c, v), fat[c := v])
  {
    hide Le32, PutLe32;
    var sector := Updated(dev, g, c, v);
    assert c / 128 < g.sectorsPerFat;
    FrontUpdated(dev, g, EntrySector(g, c), sector);
    FrontUpdated(dev[EntrySector(g, c) := sector], g, g.Fat2() + c / 128, sector);
    EntryWrittenTwice(g, Front(dev, g), fat, c, v, sector);
  }

  lemma {:induction false} ChangesSet(dev: WB.Device, g: Geometry, fat: Fat, us: seq<Change>)
    requires Tabled(g, dev, fat) && forall i :: 0 <= i < |us| ==> us[i].0 < |fat| && us[i].1 < 0x1_0000_0000
    ensures Tabled(g, AfterChanges(dev, g, us), Changed(fat, us))
    decreases |us|
  {
    hide Tabled, AfterTurn;
    if us != [] {
      TurnSets(dev, g, fat, us[0].0, us[0].1);
      ChangesSet(AfterTurn(dev, g, us[0].0, us[0].1), g, fat[us[0].0 := us[0].1], us[1..]);
    }
  }

  lemma {:induction false} FlatEndConcat(dev: WB.Device, a: seq<Op>, b: seq<Op>)
    ensures FlatEnd(dev, a + b) == FlatEnd(FlatEnd(dev, a), b)
    decreases |a|
  {
    if a == [] {
      assert a + b == b;
    } else {
      assert (a + b)[1..] == a[1..] + b;
      FlatEndConcat(if a[0].WriteOp? then dev[a[0].n := a[0].data] else dev, a[1..], b);
    }
  }

  lemma TurnEnd(dev: WB.Device, g: Geometry, c: nat, v: nat, follow: bool)
    ensures FlatEnd(dev, TurnOps(dev, g, c, v, follow)) == AfterTurn(dev, g, c, v)
  {
    hide PutLe32;
    var ops := SetOps(dev, g, c, v);
    var dev1 := dev[EntrySector(g, c) := Updated(dev, g, c, v)];
    assert FlatEnd(dev1, ops[1..][1..]) == AfterTurn(dev, g, c, v) by {
      assert ops[1..][1..] == [WriteOp(g.Fat2() + c / 128, Updated(dev, g, c, v))];
      assert ops[1..][1..][1..] == [];
    }
    assert FlatEnd(dev, ops) == AfterTurn(dev, g, c, v);
    if follow {
      FlatEndConcat(dev, [ReadOp(EntrySector(g, c), true, 0)], ops);
      assert [ReadOp(EntrySector(g, c), true, 0)][1..] == [];
    } else {
      assert TurnOps(dev, g, c, v, follow) == ops;
    }
  }

  lemma {:induction false} ChangesEnd(dev: WB.Device, g: Geometry, us: seq<Change>, follow: bool)
    ensures FlatEnd(dev, ChangeOps(dev, g, us, follow)) == AfterChanges(dev, g, us)
    decreases |us|
  {
    hide TurnOps, AfterTurn;
    if us != [] {
      var next := AfterTurn(dev, g, us[0].0, us[0].1);
      TurnEnd(dev, g, us[0].0, us[0].1, follow);
      FlatEndConcat(dev, TurnOps(dev, g, us[0].0, us[0].1, follow), ChangeOps(next, g, us[1..], follow));
      ChangesEnd(next, g, us[1..], follow);
    }
  }

  /** Over the cache too, a clean run of changes leaves both FATs with the changed entries. */
  lemma CleanChanges(s: Store, g: Geometry, fat: Fat, us: seq<Change>, follow: bool)
    requires Coherent(s) && Tabled(g, Flat(s), fat) && forall i :: 0 <= i < |us| ==> us[i].0 < |fat| && us[i].1 < 0x1_0000_0000
    requires Clean(s, ChangeOps(Flat(s), g, us, follow))
    ensures var s' := End(s, ChangeOps(Flat(s), g, us, follow));
            Coherent(s') && Tabled(g, Flat(s'), Changed(fat, us)) && Tabled(g, Drain(s').device, Changed(fat, us))
  {
    hide Coherent, Tabled, Clean;
    var ops := ChangeOps(Flat(s), g, us, follow);
    StoreIsFlatDisk(s, ops);
    ChangesEnd(Flat(s), g, us, follow);
    ChangesSet(Flat(s), g, fat, us);
    DrainRefines(End(s, ops));
  }

  // ----- which runs are clean

  /**
   * No change goes back to a FAT sector less than a read-ahead before one that has
   * been changed, except, when `again` says so, to one that has been changed itself;
   * and the FATs are long enough for FAT1's read-ahead not to reach changed sectors of FAT2.
   */
  predicate InOrder(done: set<nat>, us: seq<Change>, spf: nat, again: bool)
    decreases |us|
  {
    us != [] ==>
      var k := us[0].0 / 128;
      && ((again && k in done) || forall j :: j in done ==> !(k < j < k + 16))
      && (forall j :: j in done ==> k + 16 <= j + spf)
      && InOrder(done + {k}, us[1..], spf, again)
  }

  /** Every sector that FAT accesses can cache. */
  function Reach(g: Geometry): set<nat> {
    set n: nat | n < g.FirstDataSector() + 16 && IsNear(g, n)
  }

  predicate IsNear(g: Geometry, n: nat) {
    g.Fat1() <= n < g.FirstDataSector() + 16
  }

  /** What holds between the turns: what is pending are changed FAT sectors, and it is cached. */
  ghost predicate Between(k: Keys, g: Geometry, done: set<nat>, room: bool) {
    && k.pending <= k.cached
    && (forall m :: m in k.pending ==> exists j :: j in done && (m == g.Fat1() + j || m == g.Fat2() + j))
    && (room ==> |k.cached + Reach(g)| <= CACHE_SIZE && forall j :: j in done ==> g.Fat1() + j in k.cached)
  }

  lemma {:induction false} FillPending(k: Keys, n: nat, size: nat)
    ensures FillKeys(k, n, size).pending == k.pending || FillKeys(k, n, size).pending == {}
    ensures k.pending <= k.cached ==> FillKeys(k, n, size).pending <= FillKeys(k, n, size).cached
  {
    if size > 0 {
      FillPending(k, n, size - 1);
    }
  }

  lemma {:induction false} FillRoom(k: Keys, n: nat, size: nat, all: set<nat>)
    requires |k.cached + all| <= CACHE_SIZE && forall m :: n <= m < n + size ==> m in all
    ensures FillKeys(k, n, size).cached + all == k.cached + all && k.cached <= FillKeys(k, n, size).cached
    ensures FillKeys(k, n, size).pending == k.pending
  {
    if size > 0 {
      FillRoom(k, n, size - 1, all);
      KeepRoom(FillKeys(k, n, size - 1), n + size - 1, all);
    }
  }

  lemma KeepRoom(k: Keys, n: nat, all: set<nat>)
    requires |k.cached + all| <= CACHE_SIZE && n in all
    ensures KeepKeys(k, n) == k.(cached := k.cached + {n}) && KeepKeys(k, n).cached + all == k.cached + all
  {
    if n !in k.cached {
      Smaller(k.cached, k.cached + all, n);
    }
    assert k.cached + {n} + all == k.cached + all;
  }

  lemma Smaller(a: set<nat>, b: set<nat>, n: nat)
    requires a <= b && n in b && n !in a
    ensures |a| < |b|
  {
    Cardinal(a, b - {n});
  }

  lemma {:induction false} Cardinal(a: set<nat>, b: set<nat>)
    requires a <= b
    ensures |a| <= |b|
  {
    if a != {} {
      var n :| n in a;
      Cardinal(a - {n}, b - {n});
    }
  }

  function KeysAfter(k: Keys, ops: seq<Op>): Keys
    decreases |ops|
  {
    if ops == [] then k else KeysAfter(StepKeys(k, ops[0]), ops[1..])
  }

  lemma {:induction false} TidyConcat(k: Keys, a: seq<Op>, b: seq<Op>)
    ensures Tidy(k, a + b) <==> Tidy(k, a) && Tidy(KeysAfter(k, a), b)
    ensures KeysAfter(k, a + b) == KeysAfter(KeysAfter(k, a), b)
    decreases |a|
  {
    hide StepKeys;
    if a == [] {
      assert a + b == b;
    } else {
      assert (a + b)[1..] == a[1..] + b;
      TidyConcat(StepKeys(k, a[0]), a[1..], b);
    }
  }

  predicate InOrderNext(done: set<nat>, j: nat, spf: nat, again: bool) {
    && ((again && j in done) || forall i :: i in done ==> !(j < i < j + 16))
    && forall i :: i in done ==> j + 16 <= i + spf
  }

  /** Reading FAT sector j of FAT1 in such a state is tidy. */
  lemma ReadFat(k: Keys, g: Geometry, done: set<nat>, j: nat, room: bool, again: bool)
    requires Between(k, g, done, room) && (again ==> room) && InOrderNext(done, j, g.sectorsPerFat, again) && j < g.sectorsPerFat
    ensures Tidy(k, [ReadOp(g.Fat1() + j, true, 0)])
    ensures Between(KeysAfter(k, [ReadOp(g.Fat1() + j, true, 0)]), g, done, room)
  {
    var n, op := g.Fat1() + j, ReadOp(g.Fat1() + j, true, 0);
    assert [op][1..] == [];
    assert KeysAfter(k, [op]) == StepKeys(k, op);
    if n !in k.cached {
      forall m | m in k.pending ensures !(n <= m < n + 16) {
        var i :| i in done && (m == g.Fat1() + i || m == g.Fat2() + i);
        assert m != n;
      }
      FillPending(k, n, 16);
      if room {
        FillRoom(k, n, 16, Reach(g));
      }
    }
  }

  /** A written sector is pending and cached, unless the cache was emptied for it, and then nothing is. */
  lemma WriteShape(k: Keys, n: nat)
    requires k.pending <= k.cached
    ensures var k' := WriteKeys(k, n);
            k'.pending <= k'.cached && k'.pending <= k.pending + {n}
  {
  }

  lemma WriteRoomy(k: Keys, g: Geometry, n: nat)
    requires |k.cached + Reach(g)| <= CACHE_SIZE && n in Reach(g)
    ensures WriteKeys(k, n).cached == k.cached + {n} && |WriteKeys(k, n).cached + Reach(g)| <= CACHE_SIZE
  {
    KeepRoom(k.(pending := (if n in k.pending || 512 * |k.pending| < QUEUE_BYTES then k.pending else {}) + {n}), n, Reach(g));
    assert k.cached + {n} + Reach(g) == k.cached + Reach(g);
  }

  lemma PendingFats(pending: set<nat>, pending': set<nat>, g: Geometry, done: set<nat>, j: nat, n: nat)
    requires forall m :: m in pending ==> exists i :: i in done && (m == g.Fat1() + i || m == g.Fat2() + i)
    requires pending' <= pending + {n} && (n == g.Fat1() + j || n == g.Fat2() + j)
    ensures forall m :: m in pending' ==> exists i :: i in done + {j} && (m == g.Fat1() + i || m == g.Fat2() + i)
  {
    forall m | m in pending' ensures exists i :: i in done + {j} && (m == g.Fat1() + i || m == g.Fat2() + i) {
      if m == n {
        assert j in done + {j};
      } else {
        var i :| i in done && (m == g.Fat1() + i || m == g.Fat2() + i);
        assert i in done + {j};
      }
    }
  }

  /** Writing a changed FAT sector keeps such a state. */
  lemma WriteFat(k: Keys, g: Geometry, done: set<nat>, j: nat, data: Sector, room: bool, first: bool)
    requires Between(k, g, done, room) && j < g.sectorsPerFat && (first || j in done)
    ensures var op := WriteOp(if first then g.Fat1() + j else g.Fat2() + j, data);
            Tidy(k, [op]) && Between(KeysAfter(k, [op]), g, done + {j}, room)
  {
    hide WriteKeys, Reach;
    var n := if first then g.Fat1() + j else g.Fat2() + j;
    var op := WriteOp(n, data);
    assert [op][1..] == [];
    assert KeysAfter(k, [op]) == WriteKeys(k, n);
    WriteShape(k, n);
    PendingFats(k.pending, WriteKeys(k, n).pending, g, done, j, n);
    if room {
      InReach(g, n);
      WriteRoomy(k, g, n);
    }
  }

  lemma InReach(g: Geometry, n: nat)
    requires g.Fat1() <= n < g.FirstDataSector()
    ensures n in Reach(g)
  {
    assert IsNear(g, n);
  }

  lemma TurnTidy(k: Keys, dev: WB.Device, g: Geometry, c: nat, v: nat, follow: bool, done: set<nat>, room: bool, again: bool)
    requires Between(k, g, done, room) && (again ==> room) && InOrderNext(done, c / 128, g.sectorsPerFat, again) && c / 128 < g.sectorsPerFat
    ensures Tidy(k, TurnOps(dev, g, c, v, follow)) && Between(KeysAfter(k, TurnOps(dev, g, c, v, follow)), g, done + {c / 128}, room)
  {
    hide Between, InOrderNext, StepKeys, Updated;
    var j, data := c / 128, Updated(dev, g, c, v);
    var read, w1, w2 := [ReadOp(g.Fat1() + j, true, 0)], [WriteOp(g.Fat1() + j, data)], [WriteOp(g.Fat2() + j, data)];
    var k0 := if follow then KeysAfter(k, read) else k;
    if follow {
      ReadFat(k, g, done, j, room, again);
      TidyConcat(k, read, SetOps(dev, g, c, v));
    } else {
      assert TurnOps(dev, g, c, v, follow) == SetOps(dev, g, c, v);
    }
    ReadFat(k0, g, done, j, room, again);
    WriteFat(KeysAfter(k0, read), g, done, j, data, room, true);
    WriteFat(KeysAfter(KeysAfter(k0, read), w1), g, done + {j}, j, data, room, false);
    assert SetOps(dev, g, c, v) == read + (w1 + w2);
    TidyConcat(k0, read, w1 + w2);
    TidyConcat(KeysAfter(k0, read), w1, w2);
    assert done + {j} + {j} == done + {j};
  }

  /** Changes in order are tidy from every such state. */
  lemma {:induction false} ChangesTidy(k: Keys, dev: WB.Device, g: Geometry, us: seq<Change>, follow: bool, done: set<nat>, room: bool, again: bool)
    requires Between(k, g, done, room) && (again ==> room) && InOrder(done, us, g.sectorsPerFat, again)
    requires forall i :: 0 <= i < |us| ==> us[i].0 / 128 < g.sectorsPerFat
    ensures Tidy(k, ChangeOps(dev, g, us, follow))
    decreases |us|
  {
    hide Between, TurnOps, AfterTurn, StepKeys;
    if us != [] {
      var ops := TurnOps(dev, g, us[0].0, us[0].1, follow);
      TurnTidy(k, dev, g, us[0].0, us[0].1, follow, done, room, again);
      TidyConcat(k, ops, ChangeOps(AfterTurn(dev, g, us[0].0, us[0].1), g, us[1..], follow));
      ChangesTidy(KeysAfter(k, ops), AfterTurn(dev, g, us[0].0, us[0].1), g, us[1..], follow, done + {us[0].0 / 128}, room, again);
    }
  }

  // ----- freeing a chain

  /** What freeing a chain changes. */
  function FreeChanges(ch: seq<nat>): (us: seq<Change>)
    ensures |us| == |ch| && forall i :: 0 <= i < |ch| ==> us[i] == (ch[i], 0)
  {
    seq(|ch|, i requires 0 <= i < |ch| => (ch[i], 0))
  }

  lemma {:induction false} FreedByChanges(fat: Fat, ch: seq<nat>)
    requires forall i :: 0 <= i < |ch| ==> ch[i] < |fat|
    ensures Changed(fat, FreeChanges(ch)) == Freed(fat, ch)
    decreases |ch|
  {
    if ch != [] {
      assert FreeChanges(ch)[1..] == FreeChanges(ch[1..]);
      FreedByChanges(fat[ch[0] := 0], ch[1..]);
      assert forall c :: c in ch <==> c == ch[0] || c in ch[1..];
      assert Freed(fat[ch[0] := 0], ch[1..]) == Freed(fat, ch);
    }
  }

  /** set_fat_cluster_ptr over the store. */
  function SetOn(s: Store, g: Geometry, c: nat, v: nat): Store {
    var (s', sector) := Read(s, EntrySector(g, c), true, 0);
    var changed := PutLe32(sector, EntryOffset(c), v);
    Write(Write(s', EntrySector(g, c), changed), g.Fat2() + c / 128, changed)
  }

  /** The loop that frees a chain, over the store; the turns are bounded because a spoilt cache can make it go round. */
  function FreeOn(s: Store, g: Geometry, c: nat, turns: nat): Store
    decreases turns
  {
    if turns == 0 || c == 0 || c >= END_MARK || c / 128 >= g.sectorsPerFat then s
    else
      var (s', sector) := Read(s, EntrySector(g, c), true, 0);
      FreeOn(SetOn(s', g, c, 0), g, Le32(sector, EntryOffset(c)), turns - 1)
  }

  lemma {:induction false} EndConcat(s: Store, a: seq<Op>, b: seq<Op>)
    ensures End(s, a + b) == End(End(s, a), b)
    ensures Clean(s, a + b) <==> Clean(s, a) && Clean(End(s, a), b)
    decreases |a|
  {
    hide Step, FreshWindow, Hit;
    if a == [] {
      assert a + b == b;
    } else {
      assert (a + b)[1..] == a[1..] + b;
      EndConcat(Step(s, a[0]), a[1..], b);
    }
  }

  /** A clean turn over the store reads the link and does what its accesses say. */
  lemma TurnOn(s: Store, g: Geometry, fat: Fat, c: nat)
    requires Coherent(s) && Tabled(g, Flat(s), fat) && c < |fat| && Clean(s, TurnOps(Flat(s), g, c, 0, true))
    ensures var (s', sector) := Read(s, EntrySector(g, c), true, 0);
            && Le32(sector, EntryOffset(c)) == fat[c]
            && SetOn(s', g, c, 0) == End(s, TurnOps(Flat(s), g, c, 0, true))
    ensures var s' := End(s, TurnOps(Flat(s), g, c, 0, true));
            Coherent(s') && Flat(s') == AfterTurn(Flat(s), g, c, 0) && Tabled(g, Flat(s'), fat[c := 0])
  {
    hide Coherent, Flat, Tabled, Read, Write, FreshWindow, Hit, Le32, PutLe32, WB.Get;
    var n, dev := EntrySector(g, c), Flat(s);
    var read, ops := ReadOp(n, true, 0), TurnOps(dev, g, c, 0, true);
    StoreIsFlatDisk(s, ops);
    TurnEnd(dev, g, c, 0, true);
    TurnSets(dev, g, fat, c, 0);
    EntryOnDevice(g, dev, fat, c);
    assert ops[0] == read && ops[1..] == SetOps(dev, g, c, 0);
    ReadRefines(s, n, true, 0);
    var s1 := Step(s, read);
    assert Clean(s1, SetOps(dev, g, c, 0));
    ReadRefines(s1, n, true, 0);
    var set1 := SetOps(dev, g, c, 0)[1..];
    assert set1 == [WriteOp(n, Updated(dev, g, c, 0)), WriteOp(g.Fat2() + c / 128, Updated(dev, g, c, 0))];
    assert set1[1..] == [WriteOp(g.Fat2() + c / 128, Updated(dev, g, c, 0))] && set1[1..][1..] == [];
    var s2 := Step(s1, read);
    var s3 := Step(s2, set1[0]);
    assert End(s, ops) == End(s1, SetOps(dev, g, c, 0)) == End(s2, set1) == End(s3, set1[1..]);
    assert End(s3, set1[1..]) == Step(s3, set1[1]);
  }

  lemma EntryOnDevice(g: Geometry, dev: WB.Device, fat: Fat, c: nat)
    requires Tabled(g, dev, fat) && c < |fat|
    ensures EntrySector(g, c) < g.FirstDataSector() && Le32(WB.Get(dev, EntrySector(g, c)), EntryOffset(c)) == fat[c]
  {
    EntryRead(g, Front(dev, g), fat, c);
  }

  /** A clean free over the store follows the chain and frees it, in both FATs. */
  lemma {:induction false} FreeOnStore(s: Store, g: Geometry, fat: Fat, ch: seq<nat>, turns: nat)
    requires Coherent(s) && Tabled(g, Flat(s), fat) && |fat| <= END_MARK && IsChain(fat, ch) && turns >= |ch|
    requires Clean(s, ChangeOps(Flat(s), g, FreeChanges(ch), true))
    ensures FreeOn(s, g, ch[0], turns) == End(s, ChangeOps(Flat(s), g, FreeChanges(ch), true))
    ensures var s' := FreeOn(s, g, ch[0], turns);
            Coherent(s') && Tabled(g, Flat(s'), Freed(fat, ch)) && Tabled(g, Drain(s').device, Freed(fat, ch))
    decreases |ch|
  {
    hide Coherent, Flat, Tabled, Read, Write, TurnOps, AfterTurn, SetOn, Clean, Drain;
    var us := FreeChanges(ch);
    var ops := TurnOps(Flat(s), g, ch[0], 0, true);
    var s1 := End(s, ops);
    assert us[1..] == FreeChanges(ch[1..]);
    EndConcat(s, ops, ChangeOps(AfterTurn(Flat(s), g, ch[0], 0), g, us[1..], true));
    InTable(g, Flat(s), fat, ch[0]);
    TurnOn(s, g, fat, ch[0]);
    FreedByChanges(fat, ch);
    CleanChanges(s, g, fat, us, true);
    if |ch| > 1 {
      ChainIsDistinct(fat, ch);
      RestIsChain(fat, ch);
      FreeOnStore(s1, g, fat[ch[0] := 0], ch[1..], turns - 1);
    }
  }

  lemma InTable(g: Geometry, dev: WB.Device, fat: Fat, c: nat)
    requires Tabled(g, dev, fat) && c < |fat|
    ensures c / 128 < g.sectorsPerFat
  {
  }

  lemma RestIsChain(fat: Fat, ch: seq<nat>)
    requires IsChain(fat, ch) && Distinct(ch) && |ch| > 1
    ensures IsChain(fat[ch[0] := 0], ch[1..]) && fat[ch[0]] == ch[1]
  {
    var rest := ch[1..];
    forall i | 0 <= i < |rest| - 1 ensures fat[ch[0] := 0][rest[i]] == rest[i + 1] {
      assert fat[ch[i + 1]] == ch[i + 2];
    }
  }

  /**
   * Freeing a chain whose FAT sectors are in order is clean, whatever the cache
   * holds, when nothing is pending before: the chain ends up free in both FATs.
   */
  lemma FreeInOrder(s: Store, g: Geometry, fat: Fat, ch: seq<nat>, turns: nat)
    requires Coherent(s) && s.queue == [] && Tabled(g, Flat(s), fat) && |fat| <= END_MARK && IsChain(fat, ch) && turns >= |ch|
    requires InOrder({}, FreeChanges(ch), g.sectorsPerFat, false)
    ensures Clean(s, ChangeOps(Flat(s), g, FreeChanges(ch), true))
    ensures Tabled(g, Flat(FreeOn(s, g, ch[0], turns)), Freed(fat, ch))
  {
    hide Coherent, Flat, Tabled, FreeOn, Clean, Tidy, InOrder;
    forall i | 0 <= i < |ch| ensures ch[i] / 128 < g.sectorsPerFat {
      InTable(g, Flat(s), fat, ch[i]);
    }
    ChangesTidy(KeysOf(s), Flat(s), g, FreeChanges(ch), true, {}, false, false);
    TidyIsClean(s, ChangeOps(Flat(s), g, FreeChanges(ch), true));
    FreeOnStore(s, g, fat, ch, turns);
  }

  // ----- searching and linking

  /** Reads alone are clean when nothing is pending: the searches for free clusters. */
  lemma {:induction false} ReadsTidy(k: Keys, ops: seq<Op>)
    requires k.pending == {} && forall i :: 0 <= i < |ops| ==> ops[i].ReadOp?
    ensures Tidy(k, ops)
    decreases |ops|
  {
    if ops != [] {
      FillPending(k, ops[0].n, BatchSize(ops[0].readAhead));
      ReadsTidy(StepKeys(k, ops[0]), ops[1..]);
    }
  }

  /** What linking a block changes: each cluster is allocated, then the one before it is chained to it. */
  function LinkChanges(start: nat, n: nat): (us: seq<Change>)
    ensures forall i :: 0 <= i < |us| ==> start <= us[i].0 < start + n && us[i].1 < MaxNat(END_MARK, start + n) + 1
  {
    if n == 0 then []
    else if n == 1 then [(start, END_MARK)]
    else LinkChanges(start, n - 1) + [(start + n - 1, END_MARK), (start + n - 2, start + n - 1)]
  }

  function MaxNat(a: nat, b: nat): nat { if a < b then b else a }

  lemma {:induction false} ChangedConcat(fat: Fat, a: seq<Change>, b: seq<Change>)
    requires forall i :: 0 <= i < |a| ==> a[i].0 < |fat|
    requires forall i :: 0 <= i < |b| ==> b[i].0 < |fat|
    ensures Changed(fat, a + b) == Changed(Changed(fat, a), b)
    decreases |a|
  {
    if a == [] {
      assert a + b == b;
    } else {
      assert (a + b)[1..] == a[1..] + b;
      ChangedConcat(fat[a[0].0 := a[0].1], a[1..], b);
    }
  }

  lemma {:induction false} LinkedByChanges(fat: Fat, start: nat, n: nat)
    requires n > 0 && start + n <= |fat|
    ensures Changed(fat, LinkChanges(start, n)) == LinkRun(fat, start, n)
  {
    if n == 1 {
      LinkFirst(fat, start);
      assert LinkChanges(start, 1)[1..] == [];
    } else {
      var last: seq<Change> := [(start + n - 1, END_MARK), (start + n - 2, start + n - 1)];
      LinkedByChanges(fat, start, n - 1);
      ChangedConcat(fat, LinkChanges(start, n - 1), last);
      LinkNext(fat, start, n - 1);
      var f: Fat := LinkRun(fat, start, n - 1);
      assert last[1..] == [(start + n - 2, start + n - 1)] && last[1..][1..] == [];
      assert Changed(f, last) == Changed(f[start + n - 1 := END_MARK], last[1..]);
      assert Changed(f[start + n - 1 := END_MARK], last[1..]) == f[start + n - 1 := END_MARK][start + n - 2 := start + n - 1];
    }
  }

  /** The FAT sectors of changes. */
  function SectorsOf(us: seq<Change>): set<nat> {
    set i | 0 <= i < |us| :: us[i].0 / 128
  }

  lemma {:induction false} InOrderConcat(done: set<nat>, a: seq<Change>, b: seq<Change>, spf: nat, again: bool)
    ensures InOrder(done, a + b, spf, again) <==> InOrder(done, a, spf, again) && InOrder(done + SectorsOf(a), b, spf, again)
    decreases |a|
  {
    if a == [] {
      assert a + b == b && done + SectorsOf(a) == done;
    } else {
      var rest := a[1..];
      assert (a + b)[1..] == rest + b;
      InOrderConcat(done + {a[0].0 / 128}, rest, b, spf, again);
      assert SectorsOf(a) == {a[0].0 / 128} + SectorsOf(rest) by {
        forall k | k in SectorsOf(rest) ensures k in SectorsOf(a) {
          var i :| 0 <= i < |rest| && rest[i].0 / 128 == k;
          assert a[i + 1].0 / 128 == k;
        }
        assert a[0].0 / 128 in SectorsOf(a);
        forall k | k in SectorsOf(a) ensures k in {a[0].0 / 128} + SectorsOf(rest) {
          var i :| 0 <= i < |a| && a[i].0 / 128 == k;
          assert i > 0 ==> rest[i - 1].0 / 128 == k;
        }
      }
      assert done + SectorsOf(a) == done + {a[0].0 / 128} + SectorsOf(rest);
    }
  }

  lemma {:induction false} LinkInOrder(start: nat, n: nat, spf: nat)
    requires n > 0 && (start + n - 1) / 128 + 16 <= start / 128 + spf
    ensures InOrder({}, LinkChanges(start, n), spf, true)
    ensures (start + n - 1) / 128 in SectorsOf(LinkChanges(start, n))
    ensures forall j :: j in SectorsOf(LinkChanges(start, n)) ==> start / 128 <= j <= (start + n - 1) / 128
  {
    var us := LinkChanges(start, n);
    if n == 1 {
      assert us[0].0 / 128 in SectorsOf(us);
      assert us[1..] == [];
    } else {
      var before := LinkChanges(start, n - 1);
      var last: seq<Change> := [(start + n - 1, END_MARK), (start + n - 2, start + n - 1)];
      LinkInOrder(start, n - 1, spf);
      InOrderConcat({}, before, last, spf, true);
      assert {} + SectorsOf(before) == SectorsOf(before);
      LastInOrder(SectorsOf(before), start / 128, start + n - 1, spf);
      assert us[|us| - 2] == last[0];
      assert us[|us| - 2].0 / 128 in SectorsOf(us);
      SectorsInRun(start, n);
    }
  }

  lemma LastInOrder(done: set<nat>, low: nat, c: nat, spf: nat)
    requires c > 0 && (c - 1) / 128 in done && c / 128 + 16 <= low + spf
    requires forall j :: j in done ==> low <= j <= (c - 1) / 128
    ensures InOrder(done, [(c, END_MARK), (c - 1, c)], spf, true)
  {
    var last: seq<Change> := [(c, END_MARK), (c - 1, c)];
    assert last[1..] == [(c - 1, c)] && last[1..][1..] == [];
    assert (c - 1) / 128 in done + {c / 128};
    assert InOrder(done + {c / 128}, last[1..], spf, true);
  }

  lemma SectorsInRun(start: nat, n: nat)
    requires n > 0
    ensures forall j :: j in SectorsOf(LinkChanges(start, n)) ==> start / 128 <= j <= (start + n - 1) / 128
  {
    var us := LinkChanges(start, n);
    forall j | j in SectorsOf(us) ensures start / 128 <= j <= (start + n - 1) / 128 {
      var i :| 0 <= i < |us| && us[i].0 / 128 == j;
    }
  }

  /** Linking a block is clean when nothing is pending before and the cache has room for the FATs. */
  lemma LinkInRoom(s: Store, g: Geometry, fat: Fat, start: nat, n: nat)
    requires Coherent(s) && s.queue == [] && Tabled(g, Flat(s), fat) && |fat| <= END_MARK && n > 0 && start + n <= |fat|
    requires |Numbers(s.cache) + Reach(g)| <= CACHE_SIZE && (start + n - 1) / 128 + 16 <= start / 128 + g.sectorsPerFat
    ensures var ops := ChangeOps(Flat(s), g, LinkChanges(start, n), false);
            Clean(s, ops) && Tabled(g, Flat(End(s, ops)), LinkRun(fat, start, n))
  {
    hide Coherent, Flat, Tabled, Clean, Tidy, InOrder, LinkChanges, Reach;
    var us := LinkChanges(start, n);
    forall i | 0 <= i < |us| ensures us[i].0 / 128 < g.sectorsPerFat {
      InTable(g, Flat(s), fat, us[i].0);
    }
    LinkInOrder(start, n, g.sectorsPerFat);
    ChangesTidy(KeysOf(s), Flat(s), g, us, false, {}, true, true);
    TidyIsClean(s, ChangeOps(Flat(s), g, us, false));
    CleanChanges(s, g, fat, us, false);
    LinkedByChanges(fat, start, n);
  }

  // ----- a chain that goes back

  /** The cache holds `sector` for n, and there is room in cache and queue for r more. */
  ghost predicate Holding(s: Store, n: nat, sector: Sector, r: nat) {
    Shaped(s) && (n, sector) in s.cache && |s.cache| + r <= CACHE_SIZE && 512 * (|s.queue| + r) <= QUEUE_BYTES
  }

  lemma HoldingHits(s: Store, n: nat, sector: Sector, r: nat)
    requires Holding(s, n, sector, r)
    ensures Read(s, n, true, 0) == (s, sector)
  {
    var i :| 0 <= i < |s.cache| && s.cache[i] == (n, sector);
    assert Find(s.cache, n) == i;
  }

  /** A write to another sector leaves that line. */
  lemma HoldingOther(s: Store, n: nat, sector: Sector, r: nat, m: nat, data: Sector)
    requires Holding(s, n, sector, r) && r > 0 && m != n
    ensures Holding(Write(s, m, data), n, sector, r - 1) && Write(s, m, data).device == s.device
  {
    hide Find, Put;
    EnqueueRoom(s, m, data);
    PutLine(s.cache, m, data);
    FindAtMost(s.cache, m);
  }

  lemma FindAtMost(lines: seq<Line>, m: nat)
    ensures Find(lines, m) <= |lines|
  {
  }

  lemma EnqueueRoom(s: Store, m: nat, data: Sector)
    requires Shaped(s) && 512 * (|s.queue| + 1) <= QUEUE_BYTES
    ensures Enqueue(s, m, data).device == s.device && Enqueue(s, m, data).cache == s.cache
    ensures DistinctKeys(Enqueue(s, m, data).queue) && |Enqueue(s, m, data).queue| <= |s.queue| + 1
  {
    EnqueueUpdates(s, m, data);
  }

  /** The first turn of the loop on an empty store: the read-ahead from sector n on is cached, and what is written. */
  lemma FirstTurn(dev: WB.Device, g: Geometry, c: nat)
    ensures var s1 := Read(Store([], [], dev), EntrySector(g, c), true, 0).0;
            var s2 := SetOn(s1, g, c, 0);
            && Shaped(s2) && s2.device == dev && |s2.cache| <= 18 && |s2.queue| <= 2
            && forall l :: l in s2.cache ==> EntrySector(g, c) <= l.0 < EntrySector(g, c) + 16 || l.0 == g.Fat2() + c / 128
  {
    hide Read, Write, Holding, Shaped, WB.Get, PutLe32;
    var n := EntrySector(g, c);
    FirstFill(dev, n);
    var s1 := Read(Store([], [], dev), n, true, 0).0;
    HoldingHits(s1, n, WB.Get(dev, n), 2);
    var a := PutLe32(WB.Get(dev, n), EntryOffset(c), 0);
    WriteInRoom(s1, n, a);
    WriteInRoom(Write(s1, n, a), g.Fat2() + c / 128, a);
  }

  lemma FirstFill(dev: WB.Device, n: nat)
    ensures var s1 := Read(Store([], [], dev), n, true, 0).0;
            && Shaped(s1) && s1.device == dev && |s1.cache| <= 16 && s1.queue == []
            && Holding(s1, n, WB.Get(dev, n), 2) && forall l :: l in s1.cache ==> n <= l.0 < n + 16
  {
    hide Find, Put, WB.Get;
    var s0 := Store([], [], dev);
    var batch := Window(dev, n, 16);
    NoKeys();
    NothingCached(n);
    FillHolds(s0, n, batch);
    FillShape(s0, n, batch);
    RoomMeansNoCut(s0, n, batch);
    assert (n + 0, batch[0]) in Fill(s0, n, batch).cache;
  }

  lemma NothingCached(n: nat)
    ensures Find([], n) == 0
  {
  }

  /** A write with room in cache and queue. */
  lemma WriteInRoom(s: Store, n: nat, data: Sector)
    requires Shaped(s) && |s.cache| < CACHE_SIZE && 512 * (|s.queue| + 1) <= QUEUE_BYTES
    ensures var s' := Write(s, n, data);
            && Shaped(s') && s'.device == s.device && |s'.cache| <= |s.cache| + 1 && |s'.queue| <= |s.queue| + 1
            && forall l :: l in s'.cache ==> l.0 == n || l in s.cache
    ensures Flat(Write(s, n, data)) == Flat(s)[n := data]
  {
    hide Find, Put, Flat;
    EnqueueRoom(s, n, data);
    EnqueueUpdates(s, n, data);
    KeepFlat(Enqueue(s, n, data), n, data);
    FindAtMost(s.cache, n);
    PutLine(s.cache, n, data);
    PutLines(s.cache, n, data);
  }

  /** A miss with room in the cache: the window is cached as the device holds it. */
  lemma MissHolds(s: Store, n: nat, i: nat, r: nat)
    requires Shaped(s) && |s.cache| + 16 + r <= CACHE_SIZE && 512 * (|s.queue| + r) <= QUEUE_BYTES && i < 16
    requires forall l :: l in s.cache ==> l.0 != n
    ensures Read(s, n, true, 0).1 == WB.Get(s.device, n)
    ensures Holding(Read(s, n, true, 0).0, n + i, WB.Get(s.device, n + i), r)
  {
    hide Put, WB.Get;
    var batch := Window(s.device, n, 16);
    FillHolds(s, n, batch);
    assert (n + i, batch[i]) in Fill(s, n, batch).cache;
    forall k | 0 <= k < |s.cache| ensures s.cache[k].0 != n {
      assert s.cache[k] in s.cache;
    }
    NotFound(s.cache, n);
  }

  lemma NotFound(lines: seq<Line>, n: nat)
    requires forall k :: 0 <= k < |lines| ==> lines[k].0 != n
    ensures Find(lines, n) == |lines|
  {
  }

  /**
   * A chain that passes FAT sectors k, j and k again, j less than a read-ahead before
   * k, from an empty cache: reading j overwrites the cached copy of k, which has
   * been changed and is pending, and the last change goes out on top of the old
   * bytes.  The first cluster stays linked.
   */
  lemma LostFree(dev: WB.Device, g: Geometry, fat: Fat, ch: seq<nat>, turns: nat)
    requires Tabled(g, dev, fat) && |fat| <= END_MARK && IsChain(fat, ch) && |ch| == 3 && turns >= 3
    requires ch[0] / 128 == ch[2] / 128 && ch[1] / 128 < ch[0] / 128 < ch[1] / 128 + 16
    ensures var s := FreeOn(Store([], [], dev), g, ch[0], turns);
            Le32(WB.Get(Flat(s), EntrySector(g, ch[0])), EntryOffset(ch[0])) == ch[1] != 0
  {
    hide Tabled, Read, Write, Flat, Holding, SetOn, WB.Get, Le32, PutLe32, Shaped, EntryOffset;
    ChainIsDistinct(fat, ch);
    InTable(g, dev, fat, ch[0]);
    InTable(g, dev, fat, ch[1]);
    assert fat[ch[0]] == ch[1] && fat[ch[1]] == ch[2];
    var n, m := EntrySector(g, ch[0]), EntrySector(g, ch[1]);
    EntryOnDevice(g, dev, fat, ch[0]);
    EntryOnDevice(g, dev, fat, ch[1]);
    EntryOnDevice(g, dev, fat, ch[2]);
    var s0 := Store([], [], dev);
    FirstRead(dev, n);
    FirstTurn(dev, g, ch[0]);
    var s1 := SetOn(Read(s0, n, true, 0).0, g, ch[0], 0);
    SecondTurn(s1, g, ch[1], n, 4);
    var s2 := SetOn(Read(s1, m, true, 0).0, g, ch[1], 0);
    LastTurn(s2, g, ch[2], n, ch[0], WB.Get(dev, n));
    FollowsTo(s0, g, ch[0], turns);
    FollowsTo(s1, g, ch[1], turns - 1);
    FollowsTo(s2, g, ch[2], turns - 2);
  }

  lemma FirstRead(dev: WB.Device, n: nat)
    ensures Read(Store([], [], dev), n, true, 0).1 == WB.Get(dev, n)
  {
    NothingCached(n);
  }

  lemma FollowsTo(s: Store, g: Geometry, c: nat, turns: nat)
    requires turns > 0 && 0 < c < END_MARK && c / 128 < g.sectorsPerFat
    ensures var r := Read(s, EntrySector(g, c), true, 0);
            var next := Le32(r.1, EntryOffset(c));
            && FreeOn(s, g, c, turns) == FreeOn(SetOn(r.0, g, c, 0), g, next, turns - 1)
            && (next >= END_MARK ==> FreeOn(s, g, c, turns) == SetOn(r.0, g, c, 0))
  {
  }

  /** The second turn: the miss caches sector n as the device holds it, and the writes leave that line. */
  lemma SecondTurn(s: Store, g: Geometry, c: nat, n: nat, r: nat)
    requires Shaped(s) && |s.cache| + 20 + r <= CACHE_SIZE && 512 * (|s.queue| + 2 + r) <= QUEUE_BYTES
    requires EntrySector(g, c) < n < EntrySector(g, c) + 16 && n < g.Fat2() && c / 128 < g.sectorsPerFat
    requires forall l :: l in s.cache ==> l.0 != EntrySector(g, c)
    ensures Read(s, EntrySector(g, c), true, 0).1 == WB.Get(s.device, EntrySector(g, c))
    ensures Holding(SetOn(Read(s, EntrySector(g, c), true, 0).0, g, c, 0), n, WB.Get(s.device, n), r)
  {
    hide Read, Write, Holding, WB.Get, PutLe32, Shaped;
    var m := EntrySector(g, c);
    MissHolds(s, m, 0, 2 + r);
    MissHolds(s, m, n - m, 2 + r);
    var s1 := Read(s, m, true, 0).0;
    HoldingHits(s1, m, WB.Get(s.device, m), 2 + r);
    var data := PutLe32(WB.Get(s.device, m), EntryOffset(c), 0);
    HoldingOther(s1, n, WB.Get(s.device, n), 2 + r, m, data);
    HoldingOther(Write(s1, m, data), n, WB.Get(s.device, n), 1 + r, g.Fat2() + c / 128, data);
  }

  /** The last turn: the change of entry c goes out on top of what is cached, and entry e is as it is there. */
  lemma LastTurn(s: Store, g: Geometry, c: nat, n: nat, e: nat, sector: Sector)
    requires n == EntrySector(g, c) && c / 128 == e / 128 && c != e && n < g.Fat2()
    requires Holding(s, n, sector, 4)
    ensures Read(s, n, true, 0).1 == sector
    ensures Le32(WB.Get(Flat(SetOn(Read(s, n, true, 0).0, g, c, 0)), n), EntryOffset(e)) == Le32(sector, EntryOffset(e))
  {
    hide Read, Write, Flat, Le32, PutLe32;
    HoldingHits(s, n, sector, 4);
    var data := PutLe32(sector, EntryOffset(c), 0);
    WriteInRoom(s, n, data);
    WriteInRoom(Write(s, n, data), g.Fat2() + c / 128, data);
    EntryOffsetsApart(e, c);
    PutKeepsOther(sector, EntryOffset(c), 0, EntryOffset(e));
  }
}
