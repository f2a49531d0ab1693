/**
 * No address is stranded.  Whatever happened before, a failing ADD that created an interface
 * included, the next scan without failures registers every listed address that is not bound; and an
 * address that then stays unbound is reusable at every ADD that decides more than the reuse wait
 * later, and that ADD does not turn to EC2.
 */
module PodEligible {
  import opened Wrap
  import opened JsonTime
  import opened RegistryFile
  import opened PodLifecycle
  import PodSafety

  ghost predicate PastStamps(s: State) {
    && EPOCH <= s.since <= s.now
    && Whole(Decode(s.file))
    && forall x | x in Decode(s.file) :: Decode(s.file)[x] <= s.since
  }

  lemma PastStampsStep(c: Config, s: State, a: Action)
    requires PastStamps(s) && Enabled(c, s, a)
    ensures PastStamps(Step(c, s, a))
  {
    PodSafety.ClockMoves(c, s, a);
    match Touched(s, a)
    case Leaves =>
    case Seeds(free, _) => FlooredWhole(Epochs(free));
    case Puts(x, stamp, io) =>
      WriteEffect(s.file, x, stamp, io);
      if stamp.Some? { StampsArePast(c, s, a); }
  }

  lemma StampsArePast(c: Config, s: State, a: Action)
    requires EPOCH <= s.since <= s.now && Enabled(c, s, a) && Touched(s, a).Puts? && Touched(s, a).stamp.Some?
    ensures Touched(s, a).stamp.value <= Step(c, s, a).since
  {
  }

  lemma {:induction false} RunPastStamps(c: Config, s: State, acts: seq<Action>, s': State)
    requires PastStamps(s) && Runs(c, s, acts, s')
    ensures PastStamps(s')
    decreases |acts|
  {
    if acts != [] {
      PastStampsStep(c, s, acts[0]);
      RunPastStamps(c, Step(c, s, acts[0]), acts[1..], s');
    }
  }

  // ----- An unbound address stays registered, with its time -----

  /** No write is torn by this action. */
  predicate Completes(touch: Touch) {
    match touch
    case Leaves => true
    case Puts(_, _, io) => io != Torn
    case Seeds(_, io) => io != Torn
  }

  /**
   * The action neither takes `x` for a pod nor gives it back, and no command sees it bound: scans and
   * the GC forget the addresses that they see bound.
   */
  predicate Avoids(s: State, a: Action, x: IP) {
    && (a.ScanOne? && s.proc.AddScan? ==> x !in s.proc.bound)
    && (a.Restamp? && s.proc.AddChose? ==> s.proc.ip != x)
    && (a.HandOff? && s.proc.AddReady? ==> s.proc.ip != x)
    && (a.DelTrack? && s.proc.DelReleased? ==> s.proc.ip != x)
    && (a.GcForget? && s.proc.GcReleased? ==> s.proc.ip != x)
    && (a.GcForgetBound? && s.proc.GcRun? && s.proc.todo != [] ==> s.proc.todo[0] != x)
  }

  ghost predicate StaysUnbound(c: Config, s: State, acts: seq<Action>, x: IP)
    decreases |acts|
  {
    acts != [] ==>
      && Avoids(s, acts[0], x) && Completes(Touched(s, acts[0]))
      && Enabled(c, s, acts[0]) && StaysUnbound(c, Step(c, s, acts[0]), acts[1..], x)
  }

  /** What can still be written for a registered `x`: the epoch, when an interface is created with it. */
  lemma OnlyNewEnisTouch(c: Config, s: State, a: Action, x: IP)
    requires Enabled(c, s, a) && Avoids(s, a, x) && x in Decode(s.file)
    requires Touched(s, a).Puts? && Touched(s, a).ip == x
    ensures Touched(s, a).stamp == Some(EPOCH)
  {
  }

  lemma EntryStaysOld(c: Config, s: State, a: Action, x: IP, b: Instant)
    requires PastStamps(s) && Enabled(c, s, a) && Avoids(s, a, x) && Completes(Touched(s, a))
    requires EPOCH <= b && x in Decode(s.file) && Decode(s.file)[x] <= b
    ensures x in Decode(Step(c, s, a).file) && Decode(Step(c, s, a).file)[x] <= b
  {
    match Touched(s, a)
    case Leaves =>
    case Seeds(_, _) =>
    case Puts(y, stamp, io) =>
      WriteEffect(s.file, y, stamp, io);
      if y == x { OnlyNewEnisTouch(c, s, a, x); }
  }

  lemma {:induction false} EntryStaysOldAlong(c: Config, s: State, acts: seq<Action>, s': State, x: IP, b: Instant)
    requires PastStamps(s) && Runs(c, s, acts, s') && StaysUnbound(c, s, acts, x)
    requires EPOCH <= b && x in Decode(s.file) && Decode(s.file)[x] <= b
    ensures x in Decode(s'.file) && Decode(s'.file)[x] <= b
    decreases |acts|
  {
    if acts != [] {
      EntryStaysOld(c, s, acts[0], x, b);
      PastStampsStep(c, s, acts[0]);
      EntryStaysOldAlong(c, Step(c, s, acts[0]), acts[1..], s', x, b);
    }
  }

  lemma ReachablePastStamps(c: Config, s: State)
    requires Reachable(c, s)
    ensures PastStamps(s)
  {
    var s0, acts :| Init(c, s0) && Runs(c, s0, acts, s);
    RunPastStamps(c, s0, acts, s);
  }

  /** `x` decides an ADD that takes its cutoff at `t`: the ADD can reuse it and does not ask EC2. */
  ghost predicate Decides(c: Config, s: State, x: IP, t: Instant)
    requires s.proc.AddScan?
  {
    && !Enabled(c, s, NoReuse(false, t))
    && (Reading(s, t) && t <= s.proc.snapAt + c.decideDelay && t <= s.proc.metaAt + c.listDelay ==>
          Enabled(c, s, Reuse(x, t)))
  }

  /**
   * An address that is registered in state `s` and stays unbound decides every ADD that takes its
   * cutoff more than the reuse wait later.  All reachable states have `PastStamps`.
   */
  lemma EligibleAfterWait(c: Config, s: State, acts: seq<Action>, s': State, x: IP, t: Instant)
    requires PastStamps(s) && x in Decode(s.file)
    requires Runs(c, s, acts, s') && StaysUnbound(c, s, acts, x)
    requires s'.proc.AddScan? && s'.proc.todo == [] && x in s'.proc.free
    requires s.now + c.reuseWait < t
    ensures x in Decode(s'.file) && Decides(c, s', x, t)
  {
    EntryStaysOldAlong(c, s, acts, s', x, s.now);
  }

  /** What an absent file is seeded with is at the epoch, so that it decides every ADD as long as it stays unbound. */
  lemma SeededIsReusable(
    c: Config, s: State, free: set<IP>, x: IP, acts: seq<Action>, s': State, t: Instant)
    requires Reachable(c, s) && Enabled(c, s, Seed(free, Committed)) && x in free
    requires
      var seeded := Step(c, s, Seed(free, Committed));
      Runs(c, seeded, acts, s') && StaysUnbound(c, seeded, acts, x)
    requires s'.proc.AddScan? && s'.proc.todo == [] && x in s'.proc.free
    requires EPOCH + c.reuseWait < t
    ensures
      var m := Decode(Step(c, s, Seed(free, Committed)).file);
      m.Keys == free && m[x] == EPOCH && Decides(c, s', x, t)
  {
    ReachablePastStamps(c, s);
    SeedStep(c, s, free);
    PastStampsStep(c, s, Seed(free, Committed));
    EntryStaysOldAlong(c, Step(c, s, Seed(free, Committed)), acts, s', x, EPOCH);
    OldDecides(c, s', x, EPOCH, t);
  }

  lemma SeedStep(c: Config, s: State, free: set<IP>)
    requires Enabled(c, s, Seed(free, Committed))
    ensures
      var m := Decode(Step(c, s, Seed(free, Committed)).file);
      m.Keys == free && forall x | x in free :: m[x] == EPOCH
  {
    assert FileAfter(s.file, Seeds(free, Committed)) == Saved(Epochs(free));
  }

  lemma OldDecides(c: Config, s: State, x: IP, b: Instant, t: Instant)
    requires s.proc.AddScan? && s.proc.todo == [] && x in s.proc.free
    requires x in Decode(s.file) && Decode(s.file)[x] <= b && b + c.reuseWait < t
    ensures Decides(c, s, x, t)
  {
  }

  // ----- A scan registers what it finds unbound -----

  /** A scan that goes on without a failure, next to the environment and the seeding of an absent file. */
  predicate Proceeds(a: Action) {
    || a.Tick? || a.Bind? || a.Vanish? || a.Show? || a.Hide?
    || (a.Seed? && a.io != Torn)
    || (a.ScanOne? && !a.readFails && a.io.Committed?)
  }

  /** After the first `k` of the addresses to scan, those that are not bound are registered. */
  ghost predicate ScannedUpTo(s: State, ips: seq<IP>, bound: set<IP>, k: nat) {
    && k <= |ips| && s.proc.AddScan? && s.proc.todo == ips[k..] && s.proc.bound == bound
    && forall i | 0 <= i < k :: ips[i] in bound || ips[i] in Decode(s.file)
  }

  lemma ScanOneRegisters(c: Config, s: State, a: Action, ips: seq<IP>, bound: set<IP>, k: nat)
    requires PastStamps(s) && Enabled(c, s, a) && a.ScanOne? && Proceeds(a) && ScannedUpTo(s, ips, bound, k)
    ensures k < |ips| && ScannedUpTo(Step(c, s, a), ips, bound, k + 1)
  {
    var x := s.proc.todo[0];
    if x in bound {
      WriteEffect(s.file, x, None, a.io);
    } else if x !in Decode(s.file) {
      WriteEffect(s.file, x, Some(a.stamp), a.io);
    }
  }

  lemma OthersKeepRegistered(c: Config, s: State, a: Action, ips: seq<IP>, bound: set<IP>, k: nat)
    requires Enabled(c, s, a) && !a.ScanOne? && Proceeds(a) && ScannedUpTo(s, ips, bound, k)
    ensures ScannedUpTo(Step(c, s, a), ips, bound, k)
  {
  }

  lemma {:induction false} ScanRegisters(
    c: Config, s: State, acts: seq<Action>, s': State, ips: seq<IP>, bound: set<IP>, k: nat)
    returns (k': nat)
    requires PastStamps(s) && Runs(c, s, acts, s') && ScannedUpTo(s, ips, bound, k)
    requires forall a | a in acts :: Proceeds(a)
    ensures PastStamps(s') && ScannedUpTo(s', ips, bound, k')
    decreases |acts|
  {
    if acts == [] { return k; }
    assert acts[0] in acts;
    PastStampsStep(c, s, acts[0]);
    if acts[0].ScanOne? {
      ScanOneRegisters(c, s, acts[0], ips, bound, k);
      k' := ScanRegisters(c, Step(c, s, acts[0]), acts[1..], s', ips, bound, k + 1);
    } else {
      OthersKeepRegistered(c, s, acts[0], ips, bound, k);
      k' := ScanRegisters(c, Step(c, s, acts[0]), acts[1..], s', ips, bound, k);
    }
  }

  /**
   * From any reachable state in which a scan begins, so in particular after any failed ADD: a scan
   * without failures registers the listed address `x` that is not bound, and if `x` stays unbound it
   * decides every ADD that takes its cutoff more than the reuse wait after that scan.
   */
  lemma NeverStranded(
    c: Config, s: State, scan: seq<Action>, s1: State, wait: seq<Action>, s2: State, x: IP, t: Instant)
    requires Reachable(c, s) && s.proc.AddScan? && x in s.proc.todo && x !in s.proc.bound
    requires Runs(c, s, scan, s1) && (forall a | a in scan :: Proceeds(a)) && s1.proc.AddScan? && s1.proc.todo == []
    requires Runs(c, s1, wait, s2) && StaysUnbound(c, s1, wait, x)
    requires s2.proc.AddScan? && s2.proc.todo == [] && x in s2.proc.free
    requires s1.now + c.reuseWait < t
    ensures x in Decode(s1.file)
    ensures Decides(c, s2, x, t)
  {
    ReachablePastStamps(c, s);
    var ips := s.proc.todo;
    var k := ScanRegisters(c, s, scan, s1, ips, s.proc.bound, 0);
    var i :| 0 <= i < |ips| && ips[i] == x;
    assert i < k;
    EligibleAfterWait(c, s1, wait, s2, x, t);
  }
}
