/**
 * No command of `PodLifecycle` is stuck.  From any state in which the others stand still, DEL and the
 * GC can go on to their end, with everything done that they are for, and so can an ADD with a new
 * interface and the first ADD of a node.
 */
module PodProgress {
  import opened Wrap
  import opened JsonTime
  import opened RegistryFile
  import opened PodLifecycle
  import PodAgreement

  // ----- DEL -----

  lemma ReleaseStep(c: Config, s: State, p: PodId, x: IP)
    requires s.proc == DelRun(p, [x]) && x in s.owner && s.since <= s.now
    ensures
      var s' := Step(c, s, DelRelease(s.owner[x]));
      && s'.proc == DelReleased(p, x, true, []) && s'.owner == s.owner - {x}
      && s'.now == s'.since == s.now && s'.file == s.file
  {
  }

  lemma RecordStep(c: Config, s: State, p: PodId, x: IP)
    requires s.proc == DelReleased(p, x, true, []) && s.since <= s.now
    ensures Enabled(c, s, DelTrack(s.now, Committed))
    ensures
      var s' := Step(c, s, DelTrack(s.now, Committed));
      && s'.proc == DelRun(p, []) && s'.owner == s.owner && s'.now == s.now
      && x in Decode(s'.file) && Decode(s'.file)[x] == Stored(s.now)
  {
    var a := DelTrack(s.now, Committed);
    assert Touched(s, a) == Puts(x, Some(s.now), Committed);
    assert FileAfter(s.file, Touched(s, a)) == Saved(Updated(Decode(s.file), x, Some(s.now)));
  }

  lemma BeginStep(c: Config, s: State, p: PodId)
    requires s.proc.Idle? && s.since <= s.now && p in s.pods && s.pods[p].Bound?
    ensures
      var s' := Step(c, s, DelBegin(p));
      && s'.proc == DelRun(p, [s.pods[p].ip]) && s'.owner == s.owner
      && s'.now == s'.since == s.now && s'.file == s.file
  {
  }

  /** A DEL of a bound pod can give its address back and record it as of now. */
  lemma DelCompletes(c: Config, s: State, p: PodId) returns (acts: seq<Action>, s': State)
    requires s.proc.Idle? && s.since <= s.now && p in s.pods && s.pods[p].Bound? && s.pods[p].ip in s.owner
    ensures Runs(c, Step(c, s, DelBegin(p)), acts, s') && forall a | a in acts :: PodAgreement.Deletes(a)
    ensures s'.proc == DelRun(p, []) && s'.now == s.now
    ensures s'.owner == s.owner - {s.pods[p].ip}
    ensures s.pods[p].ip in Decode(s'.file) && Decode(s'.file)[s.pods[p].ip] == Stored(s.now)
  {
    BeginStep(c, s, p);
    acts, s' := DelGoesOn(c, Step(c, s, DelBegin(p)), p, s.pods[p].ip);
  }

  lemma DelGoesOn(c: Config, s: State, p: PodId, x: IP) returns (acts: seq<Action>, s': State)
    requires s.proc == DelRun(p, [x]) && x in s.owner && s.since <= s.now
    ensures Runs(c, s, acts, s') && forall a | a in acts :: PodAgreement.Deletes(a)
    ensures s'.proc == DelRun(p, []) && s'.now == s.now && s'.owner == s.owner - {x}
    ensures x in Decode(s'.file) && Decode(s'.file)[x] == Stored(s.now)
  {
    ReleaseStep(c, s, p, x);
    var s1 := Step(c, s, DelRelease(s.owner[x]));
    RecordStep(c, s1, p, x);
    s' := Step(c, s1, DelTrack(s1.now, Committed));
    acts := [DelRelease(s.owner[x]), DelTrack(s1.now, Committed)];
    TwoRun(c, s, acts[0], acts[1], s');
  }

  lemma TwoRun(c: Config, s: State, a: Action, b: Action, s': State)
    requires Enabled(c, s, a) && Enabled(c, Step(c, s, a), b) && Step(c, Step(c, s, a), b) == s'
    ensures Runs(c, s, [a, b], s')
  {
    var s1 := Step(c, s, a);
    assert Runs(c, s', [], s');
    assert [b][1..] == [] && [a, b][1..] == [b];
    assert Runs(c, s1, [b], s');
  }

  // ----- The GC -----

  ghost predicate GoesOn(acts: seq<Action>) {
    forall a | a in acts :: PodAgreement.Collects(a)
  }

  lemma BothGoOn(acts: seq<Action>, more: seq<Action>)
    requires GoesOn(acts) && GoesOn(more)
    ensures GoesOn(acts + more)
  {
  }

  /** What a GC that meets no failure has done about the addresses `ips`. */
  ghost predicate Collected(s: State, s': State, ips: seq<IP>, bound: set<IP>) {
    && (forall x | x in ips :: x in bound || x in s.owner ==> x !in Decode(s'.file))
    && (forall x | x in s.owner :: x in s'.owner <==> x !in ips || x in bound)
    && (forall x | x in s'.owner :: x in s.owner && s'.owner[x] == s.owner[x])
    && (forall x | x in Decode(s'.file) :: x in Decode(s.file))
  }

  lemma ForgetBoundVisits(c: Config, s: State, x: IP, rest: seq<IP>, bound: set<IP>) returns (acts: seq<Action>, s': State)
    requires s.proc == GcRun([x] + rest, bound) && x in bound
    ensures Runs(c, s, acts, s') && GoesOn(acts) && s'.proc == GcRun(rest, bound) && Collected(s, s', [x], bound)
  {
    assert ([x] + rest)[1..] == rest;
    assert Touched(s, GcForgetBound(Committed)) == Puts(x, None, Committed);
    acts := [GcForgetBound(Committed)];
    s' := OneRun(c, s, acts[0]);
  }

  lemma SkipVisits(c: Config, s: State, x: IP, rest: seq<IP>, bound: set<IP>) returns (acts: seq<Action>, s': State)
    requires s.proc == GcRun([x] + rest, bound) && x !in bound && x !in s.owner
    ensures Runs(c, s, acts, s') && GoesOn(acts) && s'.proc == GcRun(rest, bound) && Collected(s, s', [x], bound)
  {
    assert ([x] + rest)[1..] == rest;
    acts := [GcSkip];
    s' := OneRun(c, s, GcSkip);
  }

  lemma GiveBack(c: Config, s: State, x: IP, rest: seq<IP>, bound: set<IP>)
    requires s.proc == GcRun([x] + rest, bound) && x !in bound && x in s.owner
    ensures Enabled(c, s, GcRelease(s.owner[x]))
    ensures
      var s' := Step(c, s, GcRelease(s.owner[x]));
      s'.proc == GcReleased(x, true, rest, bound) && s'.owner == s.owner - {x} && s'.file == s.file
  {
    assert ([x] + rest)[1..] == rest;
  }

  lemma Forget(c: Config, s: State)
    requires s.proc.GcReleased?
    ensures Enabled(c, s, GcForget(Committed))
    ensures
      var s' := Step(c, s, GcForget(Committed));
      && s'.proc == GcRun(s.proc.todo, s.proc.bound) && s'.owner == s.owner
      && Decode(s'.file).Keys == Decode(s.file).Keys - {s.proc.ip}
  {
    assert Touched(s, GcForget(Committed)) == Puts(s.proc.ip, None, Committed);
  }

  lemma ReleaseVisits(c: Config, s: State, x: IP, rest: seq<IP>, bound: set<IP>) returns (acts: seq<Action>, s': State)
    requires s.proc == GcRun([x] + rest, bound) && x !in bound && x in s.owner
    ensures Runs(c, s, acts, s') && GoesOn(acts) && s'.proc == GcRun(rest, bound) && Collected(s, s', [x], bound)
  {
    var release, forget := GcRelease(s.owner[x]), GcForget(Committed);
    GiveBack(c, s, x, rest, bound);
    var s1 := Step(c, s, release);
    Forget(c, s1);
    s' := Step(c, s1, forget);
    TwoRun(c, s, release, forget, s');
    acts := [release, forget];
    GivenBack(s, s', x, bound);
  }

  lemma GivenBack(s: State, s': State, x: IP, bound: set<IP>)
    requires s'.owner == s.owner - {x} && Decode(s'.file).Keys == Decode(s.file).Keys - {x} && x !in bound
    ensures Collected(s, s', [x], bound)
  {
    forall y | y in Decode(s'.file) ensures y in Decode(s.file) && y != x {
      assert y in Decode(s'.file).Keys;
    }
  }

  /** One visit of a GC: an address in use is forgotten, one on the node given back and forgotten, another left. */
  lemma VisitCompletes(c: Config, s: State, x: IP, rest: seq<IP>, bound: set<IP>) returns (acts: seq<Action>, s': State)
    requires s.proc == GcRun([x] + rest, bound)
    ensures Runs(c, s, acts, s') && GoesOn(acts) && s'.proc == GcRun(rest, bound) && Collected(s, s', [x], bound)
  {
    if x in bound {
      acts, s' := ForgetBoundVisits(c, s, x, rest, bound);
    } else if x in s.owner {
      acts, s' := ReleaseVisits(c, s, x, rest, bound);
    } else {
      acts, s' := SkipVisits(c, s, x, rest, bound);
    }
  }

  lemma OneRun(c: Config, s: State, a: Action) returns (s': State)
    requires Enabled(c, s, a)
    ensures s' == Step(c, s, a) && Runs(c, s, [a], s')
  {
    s' := Step(c, s, a);
    assert Runs(c, s', [], s') && [a][1..] == [];
  }

  lemma {:induction false} RunsConcat(c: Config, s: State, acts: seq<Action>, s1: State, more: seq<Action>, s2: State)
    requires Runs(c, s, acts, s1) && Runs(c, s1, more, s2)
    ensures Runs(c, s, acts + more, s2)
    decreases |acts|
  {
    if acts == [] {
      assert acts + more == more;
    } else {
      RunsConcat(c, Step(c, s, acts[0]), acts[1..], s1, more, s2);
      assert (acts + more)[0] == acts[0] && (acts + more)[1..] == acts[1..] + more;
    }
  }

  /** A GC can give back every aged address of the node that is not in use, and forget those. */
  lemma {:induction false} GcCompletes(c: Config, s: State, todo: seq<IP>, bound: set<IP>)
    returns (acts: seq<Action>, s': State)
    requires s.proc == GcRun(todo, bound)
    ensures Runs(c, s, acts, s') && GoesOn(acts)
    ensures s'.proc == GcRun([], bound)
    ensures Collected(s, s', todo, bound)
    decreases |todo|
  {
    if todo == [] {
      acts, s' := [], s;
    } else {
      assert todo == [todo[0]] + todo[1..];
      var first, s1 := VisitCompletes(c, s, todo[0], todo[1..], bound);
      var rest;
      rest, s' := GcCompletes(c, s1, todo[1..], bound);
      RunsConcat(c, s, first, s1, rest, s');
      acts := first + rest;
      BothGoOn(first, rest);
      CollectedMore(s, s1, s', todo[0], todo[1..], bound);
    }
  }

  lemma CollectedMore(s: State, s1: State, s': State, x: IP, rest: seq<IP>, bound: set<IP>)
    requires Collected(s, s1, [x], bound) && Collected(s1, s', rest, bound)
    ensures Collected(s, s', [x] + rest, bound)
  {
    forall y | y in [x] + rest && (y in bound || y in s.owner) ensures y !in Decode(s'.file) {
      if y in [x] {
        assert y !in Decode(s1.file);
      } else {
        assert y in bound || y in s1.owner;
      }
    }
  }

  // ----- The first ADD of a node -----

  /** Where a scan has just seeded the absent file and is at its end, with `x` to report. */
  lemma SeedAndScan(c: Config, s: State, x: IP)
    requires s.proc.AddScan? && s.proc.todo == [x] && s.proc.free == [] && x !in s.proc.bound
    requires s.file.Missing? && s.since <= s.now
    ensures Enabled(c, s, Seed({x}, Committed))
    ensures Enabled(c, Step(c, s, Seed({x}, Committed)), ScanOne(false, s.now, Committed))
    ensures
      var s' := Step(c, Step(c, s, Seed({x}, Committed)), ScanOne(false, s.now, Committed));
      && s'.proc == s.proc.(todo := [], free := [x]) && Decode(s'.file) == map[x := EPOCH]
      && s'.now == s'.since == s.now
  {
    var s1 := Step(c, s, Seed({x}, Committed));
    assert FileAfter(s.file, Seeds({x}, Committed)) == Saved(Epochs({x}));
    assert Decode(s1.file) == map[x := EPOCH];
    assert Touched(s1, ScanOne(false, s.now, Committed)) == Leaves;
  }

  /** An ADD that finds no registry file can reuse an unbound address of the node at once. */
  lemma SeededCompletes(c: Config, s: State, x: IP) returns (acts: seq<Action>, s': State)
    requires s.proc.AddScan? && s.proc.todo == [x] && s.proc.free == [] && x !in s.proc.bound
    requires s.file.Missing? && s.since <= s.now
    requires s.now <= s.proc.snapAt + c.decideDelay && s.now <= s.proc.metaAt + c.listDelay
    requires EPOCH + c.reuseWait < s.now
    ensures Runs(c, s, acts, s') && s'.proc == AddChose(x) && s'.now == s.now
  {
    SeedAndScan(c, s, x);
    var seed, scan, reuse := Seed({x}, Committed), ScanOne(false, s.now, Committed), Reuse(x, s.now);
    var s2 := Step(c, Step(c, s, seed), scan);
    TwoRun(c, s, seed, scan, s2);
    s' := OneRun(c, s2, reuse);
    RunsConcat(c, s, [seed, scan], s2, [reuse], s');
    acts := [seed, scan] + [reuse];
  }

  // ----- ADD with a new interface -----

  lemma StampShow(c: Config, s: State, x: IP)
    requires s.proc.AddCreated? && x in s.proc.got && OnEni(s, s.proc.eni, x)
    ensures Enabled(c, s, EniStamp(x, Committed)) && Enabled(c, Step(c, s, EniStamp(x, Committed)), Show(s.proc.eni, x))
    ensures
      var s' := Step(c, Step(c, s, EniStamp(x, Committed)), Show(s.proc.eni, x));
      && s'.proc == s.proc && (s.proc.eni, x) in s'.meta && s'.pods == s.pods && s'.owner == s.owner
      && s'.now == s.now && s'.deleted == s.deleted
  {
  }

  lemma UseHandOff(c: Config, s: State, x: IP, p: PodId)
    requires s.proc.AddCreated? && (s.proc.eni, x) in s.meta && p !in s.pods && p !in s.deleted
    ensures Enabled(c, s, EniUse(x)) && Enabled(c, Step(c, s, EniUse(x)), HandOff(p, Committed))
    ensures
      var s' := Step(c, Step(c, s, EniUse(x)), HandOff(p, Committed));
      && s'.proc == Idle && s'.pods == s.pods[p := Handed(x, s.now)] && x !in Decode(s'.file) && s'.owner == s.owner
  {
    assert Touched(Step(c, s, EniUse(x)), HandOff(p, Committed)) == Puts(x, None, Committed);
  }

  /** The addresses of a new interface are stamped, shown, and the first one to be shown is handed off. */
  lemma CreatedCompletes(c: Config, s: State, x: IP, p: PodId) returns (acts: seq<Action>, s': State)
    requires s.proc.AddCreated? && x in s.proc.got && OnEni(s, s.proc.eni, x)
    requires p !in s.pods && p !in s.deleted
    ensures Runs(c, s, acts, s') && s'.proc == Idle
    ensures s'.pods == s.pods[p := Handed(x, s.now)] && x !in Decode(s'.file) && s'.owner == s.owner
  {
    var stamp, show := EniStamp(x, Committed), Show(s.proc.eni, x);
    var use, give := EniUse(x), HandOff(p, Committed);
    StampShow(c, s, x);
    var s2 := Step(c, Step(c, s, stamp), show);
    TwoRun(c, s, stamp, show, s2);
    UseHandOff(c, s2, x, p);
    s' := Step(c, Step(c, s2, use), give);
    TwoRun(c, s2, use, give, s');
    RunsConcat(c, s, [stamp, show], s2, [use, give], s');
    acts := [stamp, show] + [use, give];
  }
}
