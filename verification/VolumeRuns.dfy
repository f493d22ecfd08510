/**
 * Runs of whole operations on a volume, as values: the FAT and the owners' chains.
 * The methods of the file layer, the directory and the deletion say in their
 * contracts, by Reaches, which runs they are.
 */
module VolumeRuns {
  import opened Chains

  /** The FAT and the chains of the owners. */
  datatype Tables = Tables(fat: Fat, chains: map<int, seq<nat>>)

  /**
   * Flush: a new file on a block of free clusters.  Extend: a block of free
   * clusters behind a chain, by a write or by a directory that runs out of slots.
   * Shrink: all but the first k clusters freed.  Move: a growing truncation.
   * Release: a truncation to zero or a deletion.
   */
  datatype Step =
    | Flush(id: int, start: nat, n: nat)
    | Extend(id: int, start: nat, n: nat)
    | Shrink(id: int, k: nat)
    | Move(id: int, start: nat, n: nat)
    | Release(id: int)

  ghost predicate Possible(v: Tables, s: Step) {
    match s
    case Flush(id, start, n) => id !in v.chains && n > 0 && RunAt(v.fat, start, n)
    case Extend(id, start, n) => id in v.chains && n > 0 && RunAt(v.fat, start, n) && v.chains[id] != [] && v.chains[id][|v.chains[id]| - 1] < |v.fat|
    case Shrink(id, k) => id in v.chains && 0 < k <= |v.chains[id]| && v.chains[id][k - 1] < |v.fat|
    case Move(id, start, n) => id in v.chains && n > 0 && RunAt(v.fat, start, n)
    case Release(id) => id in v.chains
  }

  ghost function After(v: Tables, s: Step): Tables
    requires Possible(v, s)
  {
    match s
    case Flush(id, start, n) => Tables(LinkRun(v.fat, start, n), v.chains[id := Run(start, n)])
    case Extend(id, start, n) =>
      var ch := v.chains[id];
      Tables(LinkRun(v.fat, start, n)[ch[|ch| - 1] := start], v.chains[id := ch + Run(start, n)])
    case Shrink(id, k) =>
      var ch := v.chains[id];
      Tables(Freed(v.fat, ch[k..])[ch[k - 1] := END_MARK], v.chains[id := ch[..k]])
    case Move(id, start, n) => Tables(Freed(LinkRun(v.fat, start, n), v.chains[id]), v.chains[id := Run(start, n)])
    case Release(id) => Tables(Freed(v.fat, v.chains[id]), v.chains - {id})
  }

  ghost predicate Runs(v: Tables, steps: seq<Step>)
    decreases |steps|
  {
    steps != [] ==> Possible(v, steps[0]) && Runs(After(v, steps[0]), steps[1..])
  }

  ghost function End(v: Tables, steps: seq<Step>): Tables
    requires Runs(v, steps)
    decreases |steps|
  {
    if steps == [] then v else End(After(v, steps[0]), steps[1..])
  }

  /** What one operation leaves alone: the reserved entries, and the chains and links of every other owner. */
  ghost predicate OthersIntact(v: Tables, w: Tables, id: int) {
    && |w.fat| == |v.fat| && (forall c :: 0 <= c < 2 && c < |v.fat| ==> w.fat[c] == v.fat[c])
    && w.chains - {id} == v.chains - {id}
    && forall o, c :: o in v.chains && o != id && c in v.chains[o] && c < |v.fat| ==> w.fat[c] == v.fat[c]
  }

  lemma StepKeeps(v: Tables, s: Step)
    requires WellFormed(v.fat, v.chains) && Possible(v, s)
    ensures WellFormed(After(v, s).fat, After(v, s).chains) && OthersIntact(v, After(v, s), s.id)
  {
    hide Covered;
    var w := After(v, s);
    match s {
      case Flush(id, start, n) => NewBlock(v.fat, v.chains, id, start, n);
      case Extend(id, start, n) => Extended(v.fat, v.chains, id, start, n);
      case Shrink(id, k) => Cut(v.fat, v.chains, id, k);
      case Move(id, start, n) => Replaced(v.fat, v.chains, id, start, n);
      case Release(id) => Released(v.fat, v.chains, id);
    }
    EntriesKept(v, s);
  }

  /** A step changes links of free clusters and of its own file only. */
  lemma Touched(v: Tables, s: Step)
    requires Possible(v, s)
    ensures var w := After(v, s);
            && |w.fat| == |v.fat| && w.chains - {s.id} == v.chains - {s.id}
            && forall c :: 0 <= c < |v.fat| ==>
                 w.fat[c] == v.fat[c] || (s.id in v.chains && c in v.chains[s.id]) || (c >= 2 && v.fat[c] == 0)
  {
    var w := After(v, s);
    var own := if s.id in v.chains then v.chains[s.id] else [];
    if s.Shrink? {
      assert own[s.k - 1] in own && forall c :: c in own[s.k..] ==> c in own;
    }
    if s.Extend? {
      assert own[|own| - 1] in own;
    }
  }

  lemma EntriesKept(v: Tables, s: Step)
    requires WellFormed(v.fat, v.chains) && Possible(v, s)
    ensures OthersIntact(v, After(v, s), s.id)
  {
    hide Covered, Possible, After;
    Touched(v, s);
    forall o, c | o in v.chains && c in v.chains[o] ensures 2 <= c < |v.fat| && v.fat[c] != 0 {
      OwnedIsUsed(v.fat, v.chains[o], c);
    }
  }

  /**
   * Over every run the volume stays well formed, entries 0 and 1 never change, and
   * an owner that no step of the run names keeps its chain.
   */
  lemma {:induction false} RunKeepsVolume(v: Tables, steps: seq<Step>)
    requires WellFormed(v.fat, v.chains) && Runs(v, steps)
    ensures var w := End(v, steps);
            && WellFormed(w.fat, w.chains) && |w.fat| == |v.fat| && (forall c :: 0 <= c < 2 && c < |v.fat| ==> w.fat[c] == v.fat[c])
            && forall o :: (forall i :: 0 <= i < |steps| ==> steps[i].id != o) ==>
                 (o in w.chains <==> o in v.chains) && (o in v.chains ==> w.chains[o] == v.chains[o])
    decreases |steps|
  {
    hide WellFormed, Possible, After, RunAt;
    if steps != [] {
      var next := After(v, steps[0]);
      StepKeeps(v, steps[0]);
      RunKeepsVolume(next, steps[1..]);
      forall o | forall i :: 0 <= i < |steps| ==> steps[i].id != o
        ensures (o in next.chains <==> o in v.chains) && (o in v.chains ==> next.chains[o] == v.chains[o])
        ensures forall i :: 0 <= i < |steps[1..]| ==> steps[1..][i].id != o
      {
        assert o in next.chains <==> o in next.chains - {steps[0].id};
        assert o in v.chains <==> o in v.chains - {steps[0].id};
        assert o in v.chains ==> next.chains[o] == (next.chains - {steps[0].id})[o] == v.chains[o];
      }
    }
  }

  // ----- what a method has done

  /** now comes from was by one step. */
  ghost predicate Became(was: Tables, s: Step, now: Tables) {
    Possible(was, s) && After(was, s) == now
  }

  /** now comes from was by a run of steps of the given owners. */
  ghost predicate Reaches(was: Tables, now: Tables, ids: set<int>) {
    exists steps: seq<Step> :: IsRunOf(was, steps, now, ids)
  }

  ghost predicate IsRunOf(was: Tables, steps: seq<Step>, now: Tables, ids: set<int>) {
    Runs(was, steps) && End(was, steps) == now && forall i :: 0 <= i < |steps| ==> steps[i].id in ids
  }

  lemma ReachesItself(v: Tables, ids: set<int>)
    ensures Reaches(v, v, ids)
  {
    assert IsRunOf(v, [], v, ids);
  }

  lemma ReachesByStep(was: Tables, s: Step, now: Tables, ids: set<int>)
    requires Became(was, s, now) && s.id in ids
    ensures Reaches(was, now, ids)
  {
    assert [s][1..] == [];
    assert Runs(now, []) && End(now, []) == now;
    assert Runs(was, [s]) && End(was, [s]) == now;
    assert IsRunOf(was, [s], now, ids);
  }

  lemma {:induction false} RunConcat(v: Tables, a: seq<Step>, b: seq<Step>)
    requires Runs(v, a) && Runs(End(v, a), b)
    ensures Runs(v, a + b) && End(v, a + b) == End(End(v, a), b)
    decreases |a|
  {
    hide Possible, After;
    if a == [] {
      assert a + b == b;
    } else {
      assert (a + b)[1..] == a[1..] + b;
      RunConcat(After(v, a[0]), a[1..], b);
    }
  }

  lemma ReachesOn(u: Tables, v: Tables, w: Tables, ids: set<int>)
    requires Reaches(u, v, ids) && Reaches(v, w, ids)
    ensures Reaches(u, w, ids)
  {
    hide Runs, End;
    var a: seq<Step> :| IsRunOf(u, a, v, ids);
    var b: seq<Step> :| IsRunOf(v, b, w, ids);
    RunConcat(u, a, b);
    assert IsRunOf(u, a + b, w, ids);
  }

  lemma ReachesMore(v: Tables, w: Tables, ids: set<int>, more: set<int>)
    requires Reaches(v, w, ids) && ids <= more
    ensures Reaches(v, w, more)
  {
    hide Runs, End;
    var a: seq<Step> :| IsRunOf(v, a, w, ids);
    assert IsRunOf(v, a, w, more);
  }

  /** What is reached is well formed again; the reserved entries and the chains of all other owners are as before. */
  lemma ReachedKeepsVolume(v: Tables, w: Tables, ids: set<int>)
    requires WellFormed(v.fat, v.chains) && Reaches(v, w, ids)
    ensures WellFormed(w.fat, w.chains) && |w.fat| == |v.fat| && forall c :: 0 <= c < 2 && c < |v.fat| ==> w.fat[c] == v.fat[c]
    ensures forall o :: o !in ids ==> (o in w.chains <==> o in v.chains) && (o in v.chains ==> w.chains[o] == v.chains[o])
  {
    hide Runs, End, WellFormed;
    var steps: seq<Step> :| IsRunOf(v, steps, w, ids);
    RunKeepsVolume(v, steps);
    forall o | o !in ids ensures forall i :: 0 <= i < |steps| ==> steps[i].id != o {
    }
  }
}
