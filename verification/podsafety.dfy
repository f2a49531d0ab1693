/**
 * What every reachable state of `PodLifecycle` satisfies.
 *
 * Five layers of invariants, each kept by every step: the time stamps of addresses in use (`Core`),
 * the garbage collector (`Gc`), exclusive use (`Single`), released addresses (`Gone`), and the
 * ownership of live pods (`Owned`).  Each main theorem assumes only the delays it needs.
 */
module PodSafety {
  import opened Wrap
  import opened JsonTime
  import opened RegistryFile
  import opened PodLifecycle

  // ----- Core: an address in use is absent from the registry or stamped after its hand-off -----

  ghost predicate WasHandedOff(s: State, p: PodId) {
    p in s.pods && (s.pods[p].Handed? || s.pods[p].Bound?)
  }

  ghost predicate Times(s: State) {
    s.since <= s.now && forall p | WasHandedOff(s, p) :: s.pods[p].at <= s.since
  }

  /** Once an address was handed off, the file exists, so it is never seeded again. */
  ghost predicate FileOk(s: State) {
    && Whole(Decode(s.file))
    && (s.file.Missing? ==> forall p :: !WasHandedOff(s, p))
  }

  ghost predicate StampedAfter(s: State, x: IP, t: Instant) {
    x in Decode(s.file) ==> t < Decode(s.file)[x]
  }

  ghost predicate Stamped(c: Config, s: State) {
    forall p | InUse(c, s, p) && !s.pods[p].Native? :: StampedAfter(s, s.pods[p].ip, s.pods[p].at - SECOND)
  }

  ghost predicate CreatedUnused(c: Config, s: State) {
    s.proc.AddCreated? ==> forall x | x in s.proc.got :: Unused(c, s, x)
  }

  ghost predicate Core(c: Config, s: State) {
    Times(s) && FileOk(s) && Stamped(c, s) && CreatedUnused(c, s)
  }

  /** Every pod that still uses an address used it before, with the same hand-off. */
  ghost predicate Shrinks(c: Config, s: State, s': State) {
    forall p | InUse(c, s', p) ::
      && InUse(c, s, p)
      && s'.pods[p].ip == s.pods[p].ip
      && (s'.pods[p].Native? <==> s.pods[p].Native?)
      && (s'.pods[p].Handed? ==> s.pods[p].Handed?)
      && (!s.pods[p].Native? ==> s'.pods[p].at == s.pods[p].at)
  }

  lemma UseShrinks(c: Config, s: State, a: Action)
    requires Enabled(c, s, a) && !a.HandOff?
    ensures Shrinks(c, s, Step(c, s, a))
  {
  }

  lemma UnusedShrinks(c: Config, s: State, s': State, x: IP)
    requires Shrinks(c, s, s') && Unused(c, s, x)
    ensures Unused(c, s', x)
  {
    forall p ensures !Uses(c, s', p, x) {
      assert !Uses(c, s, p, x);
    }
  }

  lemma UsesShrink(c: Config, s: State, s': State)
    requires Shrinks(c, s, s')
    ensures forall p, x :: Uses(c, s', p, x) ==> Uses(c, s, p, x) && (s'.pods[p].Handed? ==> s.pods[p].Handed?)
  {
  }

  lemma StampsSurvive(c: Config, s: State, s': State, touch: Touch)
    requires Core(c, s) && Shrinks(c, s, s') && s'.file == FileAfter(s.file, touch)
    requires touch.Puts? && touch.stamp.Some? ==> s.since <= touch.stamp.value || Unused(c, s, touch.ip)
    requires touch.Seeds? ==> s.file.Missing?
    ensures Whole(Decode(s'.file)) && Stamped(c, s')
  {
    match touch
    case Leaves =>
    case Seeds(free, _) =>
      FlooredWhole(Epochs(free));
      forall p ensures InUse(c, s', p) ==> s'.pods[p].Native? { assert !WasHandedOff(s, p); }
    case Puts(x, stamp, io) =>
      WriteEffect(s.file, x, stamp, io);
      forall p | InUse(c, s', p) && !s'.pods[p].Native?
        ensures StampedAfter(s', s'.pods[p].ip, s'.pods[p].at - SECOND)
      {
        assert StampedAfter(s, s.pods[p].ip, s.pods[p].at - SECOND);
        if s.pods[p].ip == x { assert Uses(c, s, p, x); }
      }
  }

  /** A stamp is a fresh clock reading, except on the addresses of a new interface. */
  lemma StampsAreFresh(c: Config, s: State, a: Action)
    requires Core(c, s) && Enabled(c, s, a)
    ensures
      var touch := Touched(s, a);
      && (touch.Puts? && touch.stamp.Some? ==>
            if a.EniStamp? then Unused(c, s, touch.ip) else Reading(s, touch.stamp.value))
      && (touch.Seeds? ==> s.file.Missing?)
  {
  }

  lemma CreatedStaysUnused(c: Config, s: State, a: Action)
    requires Core(c, s) && Enabled(c, s, a) && !a.HandOff?
    ensures CreatedUnused(c, Step(c, s, a))
  {
    UseShrinks(c, s, a);
    var s' := Step(c, s, a);
    if s'.proc.AddCreated? {
      forall x | x in s'.proc.got ensures Unused(c, s', x) { UnusedShrinks(c, s, s', x); }
    }
  }

  lemma HandOffsStay(c: Config, s: State, a: Action)
    requires Enabled(c, s, a) && !a.HandOff?
    ensures
      var s' := Step(c, s, a);
      forall p | WasHandedOff(s', p) :: WasHandedOff(s, p) && s'.pods[p].at == s.pods[p].at
  {
  }

  lemma ClockMoves(c: Config, s: State, a: Action)
    requires Enabled(c, s, a) && s.since <= s.now
    ensures s.since <= Step(c, s, a).since <= Step(c, s, a).now
    ensures s.now <= Step(c, s, a).now
  {
  }

  lemma FileStays(s: State, a: Action)
    ensures FileAfter(s.file, Touched(s, a)).Missing? ==> s.file.Missing?
  {
  }

  lemma CoreStep(c: Config, s: State, a: Action)
    requires Core(c, s) && Enabled(c, s, a)
    ensures Core(c, Step(c, s, a))
  {
    if a.HandOff? {
      HandOffCore(c, s, a.p, a.io);
    } else {
      ClockMoves(c, s, a);
      HandOffsStay(c, s, a);
      FileStays(s, a);
      UseShrinks(c, s, a);
      StampsAreFresh(c, s, a);
      StampsSurvive(c, s, Step(c, s, a), Touched(s, a));
      CreatedStaysUnused(c, s, a);
    }
  }

  lemma HandOffCore(c: Config, s: State, p: PodId, io: Io)
    requires Core(c, s) && Enabled(c, s, HandOff(p, io))
    ensures Core(c, Step(c, s, HandOff(p, io)))
  {
    var s', x := Step(c, s, HandOff(p, io)), s.proc.ip;
    WriteEffect(s.file, x, None, io);
    assert !io.Committed? ==> forall q | WasHandedOff(s', q) :: WasHandedOff(s, q);
    forall q | InUse(c, s', q) && !s'.pods[q].Native?
      ensures StampedAfter(s', s'.pods[q].ip, s'.pods[q].at - SECOND)
    {
      if q in s.pods { assert InUse(c, s, q); }
    }
  }

  // ----- The garbage collector: it releases no address that is in use -----

  /** The GC read the registry before it listed the bound addresses, so nothing it holds is in flight. */
  ghost predicate Gc(c: Config, s: State) {
    match s.proc
    case GcAged(todo) => forall x, p | x in todo && Uses(c, s, p, x) :: !s.pods[p].Handed?
    case GcRun(todo, bound) => forall x, p | x in todo && Uses(c, s, p, x) :: x in bound
    case GcReleased(_, _, todo, bound) => forall x, p | x in todo && Uses(c, s, p, x) :: x in bound
    case _ => true
  }

  predicate GcWaits(c: Config) {
    c.bindDelay + SECOND - 1 <= c.freeAfter
  }

  lemma AgedNotInFlight(c: Config, s: State, x: IP, p: PodId, t: Instant)
    requires Core(c, s) && Uses(c, s, p, x) && AgedBefore(Decode(s.file), x, t)
    requires t <= s.now - c.bindDelay - SECOND + 1
    ensures !s.pods[p].Handed?
  {
  }

  lemma GcCollectStep(c: Config, s: State, a: Action)
    requires GcWaits(c) && Core(c, s) && Enabled(c, s, a) && a.GcCollect?
    ensures Gc(c, Step(c, s, a))
  {
    forall x, p | x in a.ips && Uses(c, s, p, x) ensures !s.pods[p].Handed? {
      AgedNotInFlight(c, s, x, p, a.t - a.wait);
    }
    UseShrinks(c, s, a);
  }

  lemma GcSnapshotStep(c: Config, s: State, a: Action)
    requires Gc(c, s) && Enabled(c, s, a) && a.GcSnapshot?
    ensures Gc(c, Step(c, s, a))
  {
    forall x, p | x in s.proc.todo && Uses(c, s, p, x) ensures x in BoundIps(s.pods) {
      assert IsBound(s.pods[p]);
    }
    UseShrinks(c, s, a);
  }

  predicate GcHolds(proc: Proc) {
    proc.GcAged? || proc.GcRun? || proc.GcReleased?
  }

  lemma GcKeepsList(c: Config, s: State, a: Action)
    requires Enabled(c, s, a) && !a.GcCollect? && !a.GcSnapshot?
    ensures
      var proc' := Step(c, s, a).proc;
      GcHolds(proc') ==>
        && GcHolds(s.proc)
        && (forall x | x in proc'.todo :: x in s.proc.todo)
        && (proc'.GcAged? <==> s.proc.GcAged?)
        && (!proc'.GcAged? ==> proc'.bound == s.proc.bound)
  {
  }

  lemma GcStep(c: Config, s: State, a: Action)
    requires GcWaits(c) && Core(c, s) && Gc(c, s) && Enabled(c, s, a)
    ensures Gc(c, Step(c, s, a))
  {
    if a.GcCollect? {
      GcCollectStep(c, s, a);
    } else if a.GcSnapshot? {
      GcSnapshotStep(c, s, a);
    } else if !a.HandOff? {
      GcKeepsList(c, s, a);
      UseShrinks(c, s, a);
      UsesShrink(c, s, Step(c, s, a));
    }
  }

  // ----- Exclusive use -----

  ghost predicate Exclusive(c: Config, s: State) {
    forall p, q | InUse(c, s, p) && InUse(c, s, q) && s.pods[p].ip == s.pods[q].ip :: p == q
  }

  /** Metadata shows the address where EC2 has it. */
  ghost predicate Attached(s: State, x: IP) {
    x in s.owner ==> (s.owner[x], x) in s.meta
  }

  ghost predicate Seen(c: Config, s: State) {
    forall p | InUse(c, s, p) :: Attached(s, s.pods[p].ip)
  }

  ghost predicate OneEni(s: State) {
    forall e: Eni, x: IP | (e, x) in s.meta && x in s.owner :: s.owner[x] == e
  }

  /** Whatever metadata shows on `e` beyond `shown` was granted during this ADD. */
  ghost predicate NewOnEni(c: Config, s: State, e: Eni, shown: set<IP>) {
    forall p | InUse(c, s, p) && s.pods[p].ip !in shown ::
      (e, s.pods[p].ip) !in s.meta && !OnEni(s, e, s.pods[p].ip)
  }

  /** Whoever uses an address that the snapshot missed was handed it shortly before the snapshot. */
  ghost predicate MissedOnlyInFlight(c: Config, s: State, snapAt: Instant, bound: set<IP>) {
    forall p | InUse(c, s, p) && s.pods[p].ip !in bound ::
      !s.pods[p].Native? && snapAt <= s.pods[p].at + c.bindDelay
  }

  ghost predicate Takeable(c: Config, s: State, x: IP) {
    Unused(c, s, x) && Attached(s, x)
  }

  /**
   * Metadata showed the address where it was taken away; its entry, if any, is too young to be reused
   * before metadata has caught up.
   */
  ghost predicate Doomed(c: Config, s: State, metaAt: Instant, x: IP) {
    && !c.regrants.Never? && !s.file.Missing?
    && metaAt <= s.since && StampedAfter(s, x, metaAt - c.lag - SECOND)
  }

  ghost predicate Listed(c: Config, s: State, metaAt: Instant, x: IP) {
    Attached(s, x) || Doomed(c, s, metaAt, x)
  }

  ghost predicate AddFree(c: Config, s: State) {
    match s.proc
    case AddListed(metaAt, todo) => forall x | x in todo :: Listed(c, s, metaAt, x)
    case AddScan(metaAt, snapAt, todo, bound, free) =>
      && (forall x | x in todo :: Listed(c, s, metaAt, x))
      && (forall x | x in free :: Listed(c, s, metaAt, x) && x !in bound)
      && MissedOnlyInFlight(c, s, snapAt, bound)
    case AddChose(x) => Takeable(c, s, x)
    case AddReady(x) => Takeable(c, s, x)
    case AddAsked(e, shown) => NewOnEni(c, s, e, shown)
    case AddGot(e, shown, todo, first) =>
      && NewOnEni(c, s, e, shown)
      && (forall x | x in todo :: Takeable(c, s, x))
      && (first.Some? ==> Takeable(c, s, first.value))
    case AddCreated(e, got) =>
      forall x: IP | (e, x) in s.meta || OnEni(s, e, x) :: x in got
    case _ => true
  }

  ghost predicate Single(c: Config, s: State) {
    Exclusive(c, s) && Seen(c, s) && (c.regrants.Never? ==> OneEni(s)) && AddFree(c, s)
  }

  predicate AddWaits(c: Config) {
    c.bindDelay + c.decideDelay + SECOND - 1 <= c.reuseWait
  }

  /**
   * Exclusive use rests on the grants of EC2.  If these never reuse what metadata still shows
   * elsewhere, nothing more is needed.  If they may, but not for new interfaces, then releases have to
   * be recorded and old enough before their addresses can be reused.
   */
  ghost predicate Governed(c: Config, s: State) {
    c.regrants.Never? || (c.regrants.OnRequest? && ListWaits(c) && !s.spoiled)
  }

  lemma AttachedStep(c: Config, s: State, a: Action, x: IP)
    requires Enabled(c, s, a) && Attached(s, x)
    ensures a.AskGrant? || a.EniCreate? || Attached(Step(c, s, a), x)
    ensures Unused(c, s, x) || Attached(Step(c, s, a), x)
  {
  }

  lemma OneEniStep(c: Config, s: State, a: Action)
    requires c.regrants.Never? && OneEni(s) && Enabled(c, s, a)
    ensures OneEni(Step(c, s, a))
  {
  }

  lemma HandOffStaysExclusive(c: Config, s: State, p: PodId, io: Io)
    requires Single(c, s) && Enabled(c, s, HandOff(p, io))
    ensures Exclusive(c, Step(c, s, HandOff(p, io))) && Seen(c, Step(c, s, HandOff(p, io)))
  {
    var s' := Step(c, s, HandOff(p, io));
    forall q | InUse(c, s', q) && q != p
      ensures InUse(c, s, q) && s'.pods[q] == s.pods[q] && s.pods[q].ip != s.proc.ip
    {
      assert !Uses(c, s, q, s.proc.ip);
    }
  }

  lemma ExclusiveSeenStep(c: Config, s: State, a: Action)
    requires Single(c, s) && Enabled(c, s, a) && !a.HandOff?
    ensures Exclusive(c, Step(c, s, a)) && Seen(c, Step(c, s, a))
  {
    var s' := Step(c, s, a);
    UseShrinks(c, s, a);
    forall p | InUse(c, s', p) ensures Attached(s', s'.pods[p].ip) {
      assert Uses(c, s, p, s.pods[p].ip);
      AttachedStep(c, s, a, s.pods[p].ip);
    }
  }

  lemma UserOfFree(c: Config, s: State, x: IP, p: PodId)
    requires Core(c, s) && Single(c, s) && s.proc.AddScan? && x in s.proc.free && Uses(c, s, p, x)
    ensures !s.pods[p].Native? && s.proc.snapAt <= s.pods[p].at + c.bindDelay
    ensures StampedAfter(s, x, s.pods[p].at - SECOND)
  {
    assert InUse(c, s, p);
  }

  /** The decision to reuse an address: it was free in the snapshot and has aged for the reuse wait. */
  lemma ReuseTakesUnused(c: Config, s: State, x: IP, t: Instant)
    requires AddWaits(c) && Governed(c, s) && Core(c, s) && Single(c, s) && Enabled(c, s, Reuse(x, t))
    ensures Takeable(c, s, x)
  {
    forall p ensures !Uses(c, s, p, x) {
      if Uses(c, s, p, x) { UserOfFree(c, s, x, p); }
    }
  }

  lemma TakeableStep(c: Config, s: State, a: Action, x: IP)
    requires Takeable(c, s, x) && Enabled(c, s, a)
    requires !a.HandOff? && !a.AskGrant? && !a.EniCreate?
    ensures Takeable(c, Step(c, s, a), x)
  {
    UseShrinks(c, s, a);
    UnusedShrinks(c, s, Step(c, s, a), x);
    AttachedStep(c, s, a, x);
  }

  lemma DoomedStep(c: Config, s: State, a: Action, metaAt: Instant, x: IP)
    requires Core(c, s) && Doomed(c, s, metaAt, x) && Enabled(c, s, a) && 0 <= c.lag
    requires s.proc.AddListed? || s.proc.AddScan?
    ensures Doomed(c, Step(c, s, a), metaAt, x)
  {
    ClockMoves(c, s, a);
    FileStays(s, a);
    StampsAreFresh(c, s, a);
    match Touched(s, a)
    case Leaves =>
    case Seeds(_, _) =>
    case Puts(y, stamp, io) => WriteEffect(s.file, y, stamp, io);
  }

  lemma ListedStep(c: Config, s: State, a: Action, metaAt: Instant, x: IP)
    requires Core(c, s) && Listed(c, s, metaAt, x) && Enabled(c, s, a) && (c.regrants.Never? || 0 <= c.lag)
    requires s.proc.AddListed? || s.proc.AddScan?
    ensures Listed(c, Step(c, s, a), metaAt, x)
  {
    if Attached(s, x) { AttachedStep(c, s, a, x); } else { DoomedStep(c, s, a, metaAt, x); }
  }

  lemma NewOnEniStep(c: Config, s: State, a: Action, e: Eni, shown: set<IP>)
    requires NewOnEni(c, s, e, shown) && Enabled(c, s, a) && !a.HandOff?
    ensures NewOnEni(c, Step(c, s, a), e, shown)
  {
    UseShrinks(c, s, a);
    var s' := Step(c, s, a);
    forall p | InUse(c, s', p) && s'.pods[p].ip !in shown
      ensures (e, s'.pods[p].ip) !in s'.meta && !OnEni(s', e, s'.pods[p].ip)
    {
      assert Uses(c, s, p, s.pods[p].ip);
    }
  }

  /** The environment and the steps that only read or write the registry keep what ADD relies on. */
  lemma AddFreeStays(c: Config, s: State, a: Action)
    requires Core(c, s) && Single(c, s) && Governed(c, s) && Enabled(c, s, a)
    requires !a.HandOff? && !a.AskGrant? && !a.EniCreate?
    requires Step(c, s, a).proc == s.proc
    ensures AddFree(c, Step(c, s, a))
  {
    var s' := Step(c, s, a);
    UseShrinks(c, s, a);
    match s.proc
    case AddListed(metaAt, todo) =>
      forall x | x in todo ensures Listed(c, s', metaAt, x) { ListedStep(c, s, a, metaAt, x); }
    case AddScan(metaAt, snapAt, todo, bound, free) =>
      forall x | x in todo || x in free ensures Listed(c, s', metaAt, x) { ListedStep(c, s, a, metaAt, x); }
    case AddChose(x) => TakeableStep(c, s, a, x);
    case AddReady(x) => TakeableStep(c, s, a, x);
    case AddAsked(e, shown) => NewOnEniStep(c, s, a, e, shown);
    case AddGot(e, shown, todo, first) =>
      NewOnEniStep(c, s, a, e, shown);
      forall x | x in todo || first == Some(x) ensures Takeable(c, s', x) { TakeableStep(c, s, a, x); }
    case AddCreated(e, got) =>
    case _ =>
  }

  /** Steps after which ADD relies on nothing. */
  predicate Relaxed(proc: Proc) {
    match proc
    case AddListed(_, _) => false
    case AddScan(_, _, _, _, _) => false
    case AddChose(_) => false
    case AddReady(_) => false
    case AddAsked(_, _) => false
    case AddGot(_, _, _, _) => false
    case AddCreated(_, _) => false
    case _ => true
  }

  predicate Advances(a: Action) {
    || a.AddList? || a.AddSnapshot? || a.ScanOne? || a.Reuse? || a.Restamp?
    || a.AskList? || a.AskGrant? || a.AskPoll? || a.AskTrack? || a.AskDone? || a.EniCreate? || a.EniUse?
  }

  lemma ProcMoves(c: Config, s: State, a: Action)
    requires Enabled(c, s, a)
    ensures Advances(a) || Step(c, s, a).proc == s.proc || Relaxed(Step(c, s, a).proc)
  {
  }

  lemma AddListStep(c: Config, s: State, a: Action)
    requires Single(c, s) && Governed(c, s) && (c.regrants.Never? || Gone(c, s)) && s.since <= s.now
    requires Enabled(c, s, a) && a.AddList?
    ensures AddFree(c, Step(c, s, a))
  {
    var s' := Step(c, s, a);
    forall x | x in a.ips ensures Listed(c, s', s.now, x) {
      var e: Eni :| (e, x) in s.meta;
      if !Attached(s, x) {
        assert Stale(s, (e, x));
        assert StampedAfter(s, (e, x).1, s.removedAt[(e, x)] - SECOND);
      }
    }
  }

  lemma AddSnapshotStep(c: Config, s: State, a: Action)
    requires Core(c, s) && Single(c, s) && Governed(c, s) && Enabled(c, s, a) && a.AddSnapshot?
    ensures AddFree(c, Step(c, s, a))
  {
    UseShrinks(c, s, a);
    forall x | x in s.proc.todo ensures Listed(c, Step(c, s, a), s.proc.metaAt, x) {
      ListedStep(c, s, a, s.proc.metaAt, x);
    }
  }

  lemma ScanOneStep(c: Config, s: State, a: Action)
    requires Core(c, s) && Single(c, s) && Governed(c, s) && Enabled(c, s, a) && a.ScanOne?
    ensures AddFree(c, Step(c, s, a))
  {
    UseShrinks(c, s, a);
    var s' := Step(c, s, a);
    forall x | x in s.proc.todo || x in s.proc.free ensures Listed(c, s', s.proc.metaAt, x) {
      ListedStep(c, s, a, s.proc.metaAt, x);
    }
    assert forall x | x in s'.proc.todo || x in s'.proc.free :: x in s.proc.todo || x in s.proc.free;
    assert s'.proc == ScanProc(s, a) && s'.owner == s.owner && s'.meta == s.meta;
    assert MissedOnlyInFlight(c, s', s.proc.snapAt, s.proc.bound);
  }

  lemma ReuseStep(c: Config, s: State, a: Action)
    requires AddWaits(c) && Governed(c, s) && Core(c, s) && Single(c, s) && Enabled(c, s, a) && a.Reuse?
    ensures AddFree(c, Step(c, s, a))
  {
    ReuseTakesUnused(c, s, a.x, a.t);
    TakeableStep(c, s, a, a.x);
  }

  lemma RestampStep(c: Config, s: State, a: Action)
    requires Single(c, s) && Enabled(c, s, a) && a.Restamp?
    ensures AddFree(c, Step(c, s, a))
  {
    TakeableStep(c, s, a, s.proc.ip);
  }

  lemma AskGrantStep(c: Config, s: State, a: Action)
    requires Single(c, s) && Enabled(c, s, a) && a.AskGrant?
    ensures AddFree(c, Step(c, s, a))
  {
    NewOnEniStep(c, s, a, s.proc.eni, s.proc.shown);
  }

  lemma AskListStep(c: Config, s: State, a: Action)
    requires Single(c, s) && Enabled(c, s, a) && a.AskList?
    ensures AddFree(c, Step(c, s, a))
  {
    UseShrinks(c, s, a);
    forall p | InUse(c, s, p) && s.pods[p].ip !in ShownOn(s.meta, a.e) ensures !OnEni(s, a.e, s.pods[p].ip) {
      assert Attached(s, s.pods[p].ip);
    }
  }

  lemma ShownIsUnused(c: Config, s: State, e: Eni, shown: set<IP>, x: IP)
    requires NewOnEni(c, s, e, shown) && (e, x) in s.meta && x !in shown
    ensures Unused(c, s, x)
  {
    forall p ensures !Uses(c, s, p, x) {}
  }

  /** What metadata newly shows on an interface that ADD asked for is attached there. */
  lemma ShownIsAttached(c: Config, s: State, e: Eni, shown: set<IP>, x: IP)
    requires Single(c, s) && (c.regrants.Never? || NewIsOwned(s, e, shown))
    requires (e, x) in s.meta && x !in shown
    ensures Attached(s, x)
  {
  }

  lemma AskPollStep(c: Config, s: State, a: Action)
    requires Single(c, s) && (c.regrants.Never? || Gone(c, s)) && Enabled(c, s, a) && a.AskPoll?
    ensures AddFree(c, Step(c, s, a))
  {
    NewOnEniStep(c, s, a, s.proc.eni, s.proc.shown);
    forall x | x in a.ips ensures Takeable(c, Step(c, s, a), x) {
      ShownIsUnused(c, s, s.proc.eni, s.proc.shown, x);
      ShownIsAttached(c, s, s.proc.eni, s.proc.shown, x);
      TakeableStep(c, s, a, x);
    }
  }

  lemma AskTrackStep(c: Config, s: State, a: Action)
    requires Single(c, s) && Enabled(c, s, a) && (a.AskTrack? || a.AskDone?)
    ensures AddFree(c, Step(c, s, a))
  {
    NewOnEniStep(c, s, a, s.proc.eni, s.proc.shown);
    forall x | x in s.proc.todo || s.proc.first == Some(x) ensures Takeable(c, Step(c, s, a), x) {
      TakeableStep(c, s, a, x);
    }
    if a.AskTrack? { assert Step(c, s, a).proc == GotProc(s, a) && s.proc.todo[0] in s.proc.todo; }
  }

  lemma EniCreateStep(c: Config, s: State, a: Action)
    requires Single(c, s) && Enabled(c, s, a) && a.EniCreate?
    ensures AddFree(c, Step(c, s, a))
  {
  }

  lemma EniUseStep(c: Config, s: State, a: Action)
    requires Core(c, s) && Single(c, s) && (c.regrants.Never? || Gone(c, s)) && Enabled(c, s, a) && a.EniUse?
    ensures AddFree(c, Step(c, s, a))
  {
    ShownIsAttached(c, s, s.proc.eni, {}, a.x);
    TakeableStep(c, s, a, a.x);
  }

  lemma AddFreeRest(c: Config, s: State, a: Action)
    requires Core(c, s) && Single(c, s) && Governed(c, s) && Enabled(c, s, a) && !a.HandOff? && !Advances(a)
    ensures AddFree(c, Step(c, s, a))
  {
    ProcMoves(c, s, a);
    if Step(c, s, a).proc == s.proc { AddFreeStays(c, s, a); }
  }

  lemma AddFreeStep(c: Config, s: State, a: Action)
    requires AddWaits(c) && Governed(c, s) && (c.regrants.Never? || Gone(c, s))
    requires Core(c, s) && Single(c, s) && Enabled(c, s, a) && !a.HandOff?
    ensures AddFree(c, Step(c, s, a))
  {
    if a.AddList? { AddListStep(c, s, a); }
    else if a.AddSnapshot? { AddSnapshotStep(c, s, a); }
    else if a.ScanOne? { ScanOneStep(c, s, a); }
    else if a.Reuse? { ReuseStep(c, s, a); }
    else if a.Restamp? { RestampStep(c, s, a); }
    else if a.AskList? { AskListStep(c, s, a); }
    else if a.AskGrant? { AskGrantStep(c, s, a); }
    else if a.AskPoll? { AskPollStep(c, s, a); }
    else if a.AskTrack? || a.AskDone? { AskTrackStep(c, s, a); }
    else if a.EniCreate? { EniCreateStep(c, s, a); }
    else if a.EniUse? { EniUseStep(c, s, a); }
    else { AddFreeRest(c, s, a); }
  }

  lemma SingleStep(c: Config, s: State, a: Action)
    requires AddWaits(c) && Governed(c, s) && (c.regrants.Never? || Gone(c, s))
    requires Core(c, s) && Single(c, s) && Enabled(c, s, a)
    ensures Single(c, Step(c, s, a))
  {
    if c.regrants.Never? { OneEniStep(c, s, a); }
    if a.HandOff? {
      HandOffStaysExclusive(c, s, a.p, a.io);
      ProcMoves(c, s, a);
    } else {
      ExclusiveSeenStep(c, s, a);
      AddFreeStep(c, s, a);
    }
  }

  // ----- Released addresses: an ADD never hands off what DEL or the GC gave back -----

  predicate ListWaits(c: Config) {
    0 <= c.lag && c.lag + c.listDelay + SECOND - 1 <= c.reuseWait
  }

  /** The registry's stamp of a released address is not older than the release. */
  ghost predicate Recorded(s: State) {
    !s.spoiled ==>
      && (forall pr | pr in s.removedAt && pr.1 !in s.owner && !MidRelease(s, pr.1) ::
            StampedAfter(s, pr.1, s.removedAt[pr] - SECOND))
      && (s.file.Missing? ==> forall pr | pr in s.removedAt :: MidRelease(s, pr.1))
  }

  /** EC2 still has the address here, or took it away so late that metadata could still show it. */
  ghost predicate JustListed(c: Config, s: State, metaAt: Instant, x: IP) {
    x in s.owner || exists e: Eni :: (e, x) in s.removedAt && metaAt <= s.removedAt[(e, x)] + c.lag
  }

  ghost predicate NewIsOwned(s: State, e: Eni, shown: set<IP>) {
    forall x: IP | (e, x) in s.meta && x !in shown :: OnEni(s, e, x)
  }

  ghost predicate AddOwned(c: Config, s: State) {
    match s.proc
    case AddListed(metaAt, todo) => forall x | x in todo :: JustListed(c, s, metaAt, x)
    case AddScan(metaAt, _, todo, _, free) =>
      forall x | x in todo || x in free :: JustListed(c, s, metaAt, x)
    case AddChose(x) => !s.spoiled ==> x in s.owner
    case AddReady(x) => !s.spoiled ==> x in s.owner
    case AddAsked(e, shown) => NewIsOwned(s, e, shown)
    case AddGot(e, shown, todo, first) =>
      && NewIsOwned(s, e, shown)
      && (forall x | x in todo :: x in s.owner)
      && (first.Some? ==> first.value in s.owner)
    case AddCreated(e, got) => NewIsOwned(s, e, {}) && forall x | x in got :: x in s.owner
    case _ => true
  }

  /** What `Recorded` says, also of an address that was granted again while metadata shows its old place. */
  ghost predicate StaleRecorded(s: State) {
    !s.spoiled ==>
      forall pr | Stale(s, pr) && pr in s.removedAt && !MidRelease(s, pr.1) ::
        StampedAfter(s, pr.1, s.removedAt[pr] - SECOND)
  }

  /** The addresses of a new interface are shown nowhere else. */
  ghost predicate CreatedUnshown(s: State) {
    s.proc.AddCreated? ==>
      forall x | x in s.proc.got :: OnEni(s, s.proc.eni, x) && forall e | (e, x) in s.meta :: e == s.proc.eni
  }

  ghost predicate Gone(c: Config, s: State) {
    && LagHolds(c, s, s.now)
    && (!c.regrants.Always? ==> StaleRecorded(s) && CreatedUnshown(s))
    && (forall pr | pr in s.removedAt :: s.removedAt[pr] <= s.since)
    && Recorded(s)
    && AddOwned(c, s)
  }

  /** A release happens only in the two steps that then have to record it. */
  lemma ReleaseSteps(c: Config, s: State, a: Action)
    requires Enabled(c, s, a)
    ensures
      var s' := Step(c, s, a);
      if a.DelRelease? || a.GcRelease? then
        && s'.file == s.file && s'.spoiled == s.spoiled && !Unrecorded(s.proc)
        && (forall pr | pr in s'.removedAt ::
              || (pr in s.removedAt && s'.removedAt[pr] == s.removedAt[pr] && (pr.1 in s.owner ==> pr.1 in s'.owner || MidRelease(s', pr.1)))
              || MidRelease(s', pr.1))
      else
        s'.removedAt == s.removedAt && forall x | x in s.owner :: x in s'.owner
  {
  }

  lemma MetaSteps(c: Config, s: State, a: Action, pr: Shown)
    requires Enabled(c, s, a) && pr in Step(c, s, a).meta
    ensures pr in s.meta || (a.Show? && OnEni(Step(c, s, a), pr.0, pr.1))
  {
  }

  lemma OwnerSteps(c: Config, s: State, a: Action, e: Eni, x: IP)
    requires Enabled(c, s, a) && OnEni(s, e, x) && !OnEni(Step(c, s, a), e, x)
    ensures (e, x) in Step(c, s, a).removedAt && Step(c, s, a).removedAt[(e, x)] == s.now
  {
  }

  lemma RemovalsStay(c: Config, s: State, a: Action)
    requires Enabled(c, s, a)
    ensures
      forall pr | pr in s.removedAt ::
        pr in Step(c, s, a).removedAt && (Step(c, s, a).removedAt[pr] == s.removedAt[pr] || Step(c, s, a).removedAt[pr] == s.now)
  {
  }

  lemma NowSteps(c: Config, s: State, a: Action)
    requires Enabled(c, s, a)
    ensures Step(c, s, a).now == s.now || LagHolds(c, s, Step(c, s, a).now)
    ensures Step(c, s, a).now == s.now || Step(c, s, a).removedAt == s.removedAt
  {
  }

  lemma LagStep(c: Config, s: State, a: Action)
    requires ListWaits(c) && s.since <= s.now && Gone(c, s) && Enabled(c, s, a)
    ensures LagHolds(c, Step(c, s, a), Step(c, s, a).now)
  {
    var s' := Step(c, s, a);
    NowSteps(c, s, a);
    forall pr | Stale(s', pr) ensures pr in s'.removedAt && s'.now <= s'.removedAt[pr] + c.lag {
      MetaSteps(c, s, a, pr);
      RemovalsStay(c, s, a);
      if OnEni(s, pr.0, pr.1) { OwnerSteps(c, s, a, pr.0, pr.1); } else { assert Stale(s, pr); }
    }
  }

  lemma SpoiledStays(c: Config, s: State, a: Action)
    requires Enabled(c, s, a) && s.spoiled
    ensures Step(c, s, a).spoiled
  {
  }

  /** Leaving the release behind needs a committed registry write, or spoils the run. */
  lemma RecordingSteps(c: Config, s: State, a: Action)
    requires Enabled(c, s, a) && Unrecorded(s.proc)
    ensures
      var s' := Step(c, s, a);
      || s'.proc == s.proc
      || s'.spoiled
      || (Touched(s, a).Puts? && Touched(s, a).ip == s.proc.ip && Touched(s, a).io.Committed?)
  {
  }

  lemma RemovedPastStep(c: Config, s: State, a: Action)
    requires s.since <= s.now && Gone(c, s) && Enabled(c, s, a)
    ensures forall pr | pr in Step(c, s, a).removedAt :: Step(c, s, a).removedAt[pr] <= Step(c, s, a).since
  {
    ReleaseSteps(c, s, a);
    ClockMoves(c, s, a);
  }

  lemma RecordedRelease(c: Config, s: State, a: Action)
    requires Core(c, s) && Gone(c, s) && Enabled(c, s, a) && (a.DelRelease? || a.GcRelease?)
    ensures Recorded(Step(c, s, a))
  {
    ReleaseSteps(c, s, a);
    var s' := Step(c, s, a);
    forall pr | !s'.spoiled && pr in s'.removedAt && pr.1 !in s'.owner && !MidRelease(s', pr.1)
      ensures StampedAfter(s', pr.1, s'.removedAt[pr] - SECOND)
    {
      assert pr in s.removedAt && pr.1 !in s.owner && !MidRelease(s, pr.1);
    }
  }

  lemma RecordedOther(c: Config, s: State, a: Action, pr: Shown)
    requires Core(c, s) && Gone(c, s) && Enabled(c, s, a) && !a.DelRelease? && !a.GcRelease?
    requires !Step(c, s, a).spoiled && pr in s.removedAt && pr.1 !in s.owner && !MidRelease(Step(c, s, a), pr.1)
    ensures StampedAfter(Step(c, s, a), pr.1, s.removedAt[pr] - SECOND)
  {
    if s.spoiled { SpoiledStays(c, s, a); }
    StampsAreFresh(c, s, a);
    if MidRelease(s, pr.1) { RecordingSteps(c, s, a); }
    match Touched(s, a)
    case Leaves =>
    case Seeds(_, _) =>
    case Puts(x, stamp, io) => WriteEffect(s.file, x, stamp, io);
  }

  lemma RecordedStep(c: Config, s: State, a: Action)
    requires Core(c, s) && Gone(c, s) && Enabled(c, s, a)
    ensures Recorded(Step(c, s, a))
  {
    if a.DelRelease? || a.GcRelease? {
      RecordedRelease(c, s, a);
    } else {
      var s' := Step(c, s, a);
      ReleaseSteps(c, s, a);
      FileStays(s, a);
      if s.spoiled { SpoiledStays(c, s, a); }
      forall pr | !s'.spoiled && pr in s'.removedAt && pr.1 !in s'.owner && !MidRelease(s', pr.1)
        ensures StampedAfter(s', pr.1, s'.removedAt[pr] - SECOND)
      {
        RecordedOther(c, s, a, pr);
      }
      forall pr | !s'.spoiled && s'.file.Missing? && pr in s'.removedAt ensures MidRelease(s', pr.1) {
        assert MidRelease(s, pr.1);
        RecordingSteps(c, s, a);
      }
    }
  }

  lemma CreatedUnshownStep(c: Config, s: State, a: Action)
    requires !c.regrants.Always? && Gone(c, s) && Enabled(c, s, a)
    ensures CreatedUnshown(Step(c, s, a))
  {
  }

  lemma StaleSteps(c: Config, s: State, a: Action, pr: Shown)
    requires Gone(c, s) && Enabled(c, s, a) && Stale(Step(c, s, a), pr)
    ensures Stale(s, pr) || ((a.DelRelease? || a.GcRelease?) && MidRelease(Step(c, s, a), pr.1))
    ensures Stale(s, pr) && (a.DelRelease? || a.GcRelease?) && !MidRelease(Step(c, s, a), pr.1) ==>
      pr in s.removedAt && Step(c, s, a).removedAt[pr] == s.removedAt[pr] && !MidRelease(s, pr.1)
  {
    MetaSteps(c, s, a, pr);
  }

  lemma StaleRecordedOther(c: Config, s: State, a: Action, pr: Shown)
    requires !c.regrants.Always? && Core(c, s) && Gone(c, s) && Enabled(c, s, a) && !a.DelRelease? && !a.GcRelease?
    requires !Step(c, s, a).spoiled && Stale(s, pr) && !MidRelease(Step(c, s, a), pr.1)
    ensures StampedAfter(Step(c, s, a), pr.1, s.removedAt[pr] - SECOND)
  {
    if s.spoiled { SpoiledStays(c, s, a); }
    StampsAreFresh(c, s, a);
    if MidRelease(s, pr.1) { RecordingSteps(c, s, a); }
    match Touched(s, a)
    case Leaves =>
    case Seeds(_, _) =>
    case Puts(x, stamp, io) => WriteEffect(s.file, x, stamp, io);
  }

  lemma StaleRecordedStep(c: Config, s: State, a: Action)
    requires !c.regrants.Always? && Core(c, s) && Gone(c, s) && Enabled(c, s, a)
    ensures StaleRecorded(Step(c, s, a))
  {
    var s' := Step(c, s, a);
    ReleaseSteps(c, s, a);
    if s.spoiled { SpoiledStays(c, s, a); }
    forall pr | !s'.spoiled && Stale(s', pr) && pr in s'.removedAt && !MidRelease(s', pr.1)
      ensures StampedAfter(s', pr.1, s'.removedAt[pr] - SECOND)
    {
      StaleSteps(c, s, a, pr);
      if !a.DelRelease? && !a.GcRelease? { StaleRecordedOther(c, s, a, pr); }
    }
  }

  /** The registry's stamp of an address that was taken away is older than the wait only if metadata dropped it. */
  lemma AgedIsDropped(c: Config, s: State, x: IP, t: Instant, metaAt: Instant)
    requires ListWaits(c) && Recorded(s) && !s.spoiled && !Unrecorded(s.proc)
    requires AgedBefore(Decode(s.file), x, t - c.reuseWait) && t <= metaAt + c.listDelay
    ensures x in s.owner || forall e: Eni | (e, x) in s.removedAt :: s.removedAt[(e, x)] + c.lag < metaAt
  {
    forall e: Eni | x !in s.owner && (e, x) in s.removedAt ensures s.removedAt[(e, x)] + c.lag < metaAt {
      assert StampedAfter(s, (e, x).1, s.removedAt[(e, x)] - SECOND);
    }
  }

  lemma ReuseTakesOwned(c: Config, s: State, a: Action)
    requires ListWaits(c) && Core(c, s) && Gone(c, s) && Enabled(c, s, a) && a.Reuse? && !s.spoiled
    ensures a.x in s.owner
  {
    AgedIsDropped(c, s, a.x, a.t, s.proc.metaAt);
  }

  lemma JustListedStep(c: Config, s: State, a: Action, metaAt: Instant, x: IP)
    requires JustListed(c, s, metaAt, x) && Enabled(c, s, a) && !a.DelRelease? && !a.GcRelease?
    ensures JustListed(c, Step(c, s, a), metaAt, x)
  {
    ReleaseSteps(c, s, a);
  }

  lemma AddOwnedScan(c: Config, s: State, a: Action)
    requires ListWaits(c) && Core(c, s) && Gone(c, s) && Enabled(c, s, a)
    requires a.AddList? || a.AddSnapshot? || a.ScanOne?
    ensures AddOwned(c, Step(c, s, a))
  {
    var s' := Step(c, s, a);
    if a.AddList? {
      forall x | x in a.ips ensures JustListed(c, s', s.now, x) {
        var e: Eni :| (e, x) in s.meta;
        assert x in s.owner || Stale(s, (e, x));
      }
    } else {
      forall x | x in s.proc.todo || (a.ScanOne? && x in s.proc.free) ensures JustListed(c, s', s.proc.metaAt, x) {
        JustListedStep(c, s, a, s.proc.metaAt, x);
      }
      if a.ScanOne? {
        assert s'.proc == ScanProc(s, a);
        assert forall x | x in s'.proc.todo || x in s'.proc.free :: x in s.proc.todo || x in s.proc.free;
      }
    }
  }

  lemma NewIsOwnedStep(c: Config, s: State, a: Action, e: Eni, shown: set<IP>)
    requires NewIsOwned(s, e, shown) && Enabled(c, s, a) && !a.DelRelease? && !a.GcRelease?
    ensures NewIsOwned(Step(c, s, a), e, shown)
  {
  }

  lemma AddOwnedAsk(c: Config, s: State, a: Action)
    requires Core(c, s) && Gone(c, s) && Enabled(c, s, a)
    requires a.AskList? || a.AskGrant? || a.AskPoll? || a.AskTrack? || a.AskDone?
    ensures AddOwned(c, Step(c, s, a))
  {
    ReleaseSteps(c, s, a);
    if !a.AskList? { NewIsOwnedStep(c, s, a, s.proc.eni, s.proc.shown); }
    if a.AskTrack? {
      assert Step(c, s, a).proc == GotProc(s, a) && s.proc.todo[0] in s.proc.todo;
    }
  }

  lemma AddOwnedStays(c: Config, s: State, a: Action)
    requires Core(c, s) && Gone(c, s) && Enabled(c, s, a) && !a.DelRelease? && !a.GcRelease?
    requires Step(c, s, a).proc == s.proc
    ensures AddOwned(c, Step(c, s, a))
  {
    var s' := Step(c, s, a);
    ReleaseSteps(c, s, a);
    if s.spoiled { SpoiledStays(c, s, a); }
    match s.proc
    case AddListed(metaAt, todo) =>
      forall x | x in todo ensures JustListed(c, s', metaAt, x) { JustListedStep(c, s, a, metaAt, x); }
    case AddScan(metaAt, _, todo, _, free) =>
      forall x | x in todo || x in free ensures JustListed(c, s', metaAt, x) { JustListedStep(c, s, a, metaAt, x); }
    case AddAsked(e, shown) => NewIsOwnedStep(c, s, a, e, shown);
    case AddGot(e, shown, _, _) => NewIsOwnedStep(c, s, a, e, shown);
    case AddCreated(e, _) => NewIsOwnedStep(c, s, a, e, {});
    case _ =>
  }

  lemma AddOwnedStep(c: Config, s: State, a: Action)
    requires ListWaits(c) && Core(c, s) && Gone(c, s) && Enabled(c, s, a)
    ensures AddOwned(c, Step(c, s, a))
  {
    if a.AddList? || a.AddSnapshot? || a.ScanOne? {
      AddOwnedScan(c, s, a);
    } else if a.AskList? || a.AskGrant? || a.AskPoll? || a.AskTrack? || a.AskDone? {
      AddOwnedAsk(c, s, a);
    } else {
      AddOwnedRest(c, s, a);
    }
  }

  lemma AddOwnedRest(c: Config, s: State, a: Action)
    requires ListWaits(c) && Core(c, s) && Gone(c, s) && Enabled(c, s, a)
    requires !a.AddList? && !a.AddSnapshot? && !a.ScanOne?
    requires !a.AskList? && !a.AskGrant? && !a.AskPoll? && !a.AskTrack? && !a.AskDone?
    ensures AddOwned(c, Step(c, s, a))
  {
    if a.Reuse? {
      if !s.spoiled { ReuseTakesOwned(c, s, a); }
    } else if a.Restamp? || a.EniCreate? || a.EniUse? {
    } else {
      ProcMoves(c, s, a);
      if Step(c, s, a).proc == s.proc && !a.DelRelease? && !a.GcRelease? { AddOwnedStays(c, s, a); }
    }
  }

  lemma GoneStep(c: Config, s: State, a: Action)
    requires ListWaits(c) && Core(c, s) && Gone(c, s) && Enabled(c, s, a)
    ensures Gone(c, Step(c, s, a))
  {
    LagStep(c, s, a);
    RemovedPastStep(c, s, a);
    RecordedStep(c, s, a);
    AddOwnedStep(c, s, a);
    if !c.regrants.Always? {
      StaleRecordedStep(c, s, a);
      CreatedUnshownStep(c, s, a);
    }
  }

  // ----- Live pods own their address -----

  predicate AllWait(c: Config) {
    AddWaits(c) && ListWaits(c) && GcWaits(c)
  }

  /** Nobody but the pod being deleted uses what DEL is about to release. */
  ghost predicate DelOwn(c: Config, s: State) {
    DelHolds(s.proc) ==>
      && s.proc.pod in s.deleted
      && forall x, p | x in s.proc.todo && Uses(c, s, p, x) :: p == s.proc.pod
  }

  ghost predicate LiveOwned(c: Config, s: State) {
    !s.spoiled ==>
      forall p | InUse(c, s, p) && !s.pods[p].Native? && p !in s.deleted :: s.pods[p].ip in s.owner
  }

  ghost predicate Owned(c: Config, s: State) {
    DelOwn(c, s) && LiveOwned(c, s)
  }

  predicate DelHolds(proc: Proc) {
    proc.DelRun? || proc.DelReleased?
  }

  lemma DelKeepsList(c: Config, s: State, a: Action)
    requires Enabled(c, s, a) && !a.DelBegin?
    ensures
      var proc' := Step(c, s, a).proc;
      DelHolds(proc') ==>
        && DelHolds(s.proc) && proc'.pod == s.proc.pod && forall x | x in proc'.todo :: x in s.proc.todo
    ensures Step(c, s, a).deleted == s.deleted
  {
  }

  lemma DelBeginStep(c: Config, s: State, a: Action)
    requires Single(c, s) && Enabled(c, s, a) && a.DelBegin?
    ensures DelOwn(c, Step(c, s, a))
  {
    UseShrinks(c, s, a);
    UsesShrink(c, s, Step(c, s, a));
    forall x, p | s.pods[a.p].Bound? && x == s.pods[a.p].ip && Uses(c, s, p, x) ensures p == a.p {
      assert InUse(c, s, a.p) && InUse(c, s, p);
    }
  }

  lemma DelOwnStep(c: Config, s: State, a: Action)
    requires Single(c, s) && Owned(c, s) && Enabled(c, s, a)
    ensures DelOwn(c, Step(c, s, a))
  {
    if a.DelBegin? {
      DelBeginStep(c, s, a);
    } else if !a.HandOff? {
      DelKeepsList(c, s, a);
      UseShrinks(c, s, a);
      UsesShrink(c, s, Step(c, s, a));
    }
  }

  lemma KeepsOwner(c: Config, s: State, a: Action, x: IP)
    requires Enabled(c, s, a) && x in s.owner
    ensures x in Step(c, s, a).owner || ((a.DelRelease? || a.GcRelease?) && x == s.proc.todo[0])
  {
  }

  /** What DEL and the GC take off an interface is the address of no live pod. */
  lemma ReleaseSparesLive(c: Config, s: State, a: Action, p: PodId)
    requires Gc(c, s) && Owned(c, s) && Enabled(c, s, a) && (a.DelRelease? || a.GcRelease?)
    requires InUse(c, s, p) && p !in s.deleted
    ensures s.pods[p].ip != s.proc.todo[0]
  {
    assert s.proc.todo[0] in s.proc.todo;
    assert !Uses(c, s, p, s.proc.todo[0]);
  }

  lemma LiveOwnedStep(c: Config, s: State, a: Action)
    requires Gc(c, s) && Gone(c, s) && Owned(c, s) && Enabled(c, s, a)
    ensures LiveOwned(c, Step(c, s, a))
  {
    var s' := Step(c, s, a);
    if s.spoiled { SpoiledStays(c, s, a); }
    forall p | !s'.spoiled && InUse(c, s', p) && !s'.pods[p].Native? && p !in s'.deleted
      ensures s'.pods[p].ip in s'.owner
    {
      if a.HandOff? {
        if p in s.pods { assert InUse(c, s, p); }
      } else {
        UseShrinks(c, s, a);
        KeepsOwner(c, s, a, s.pods[p].ip);
        if a.DelRelease? || a.GcRelease? { ReleaseSparesLive(c, s, a, p); }
      }
    }
  }

  // ----- All runs -----

  ghost predicate Safe(c: Config, s: State) {
    && Core(c, s)
    && (GcWaits(c) ==> Gc(c, s))
    && (AddWaits(c) && Governed(c, s) ==> Single(c, s))
    && (ListWaits(c) ==> Gone(c, s))
    && (AllWait(c) && Governed(c, s) ==> Owned(c, s))
  }

  lemma InitSafe(c: Config, s: State)
    requires Init(c, s)
    ensures Safe(c, s)
  {
  }

  lemma StepSafe(c: Config, s: State, a: Action)
    requires Safe(c, s) && Enabled(c, s, a)
    ensures Safe(c, Step(c, s, a))
  {
    CoreStep(c, s, a);
    if s.spoiled { SpoiledStays(c, s, a); }
    if GcWaits(c) { GcStep(c, s, a); }
    if AddWaits(c) && Governed(c, s) { SingleStep(c, s, a); }
    if ListWaits(c) { GoneStep(c, s, a); }
    if AllWait(c) && Governed(c, s) {
      DelOwnStep(c, s, a);
      LiveOwnedStep(c, s, a);
    }
  }

  lemma {:induction false} RunSafe(c: Config, s: State, acts: seq<Action>, s': State)
    requires Safe(c, s) && Runs(c, s, acts, s')
    ensures Safe(c, s')
    decreases |acts|
  {
    if acts != [] {
      StepSafe(c, s, acts[0]);
      RunSafe(c, Step(c, s, acts[0]), acts[1..], s');
    }
  }

  lemma ReachableSafe(c: Config, s: State)
    requires Reachable(c, s)
    ensures Safe(c, s)
  {
    var s0, acts :| Init(c, s0) && Runs(c, s0, acts, s);
    InitSafe(c, s0);
    RunSafe(c, s0, acts, s);
  }

  /**
   * No two pods ever own the same address, if EC2 never grants what metadata still shows elsewhere.
   * Where it may do so for interfaces that ask for addresses, this holds as long as every release was
   * recorded and the reuse wait covers the metadata lag.
   */
  lemma PodsAreExclusive(c: Config, s: State)
    requires AddWaits(c) && Governed(c, s) && Reachable(c, s)
    ensures Exclusive(c, s)
  {
    ReachableSafe(c, s);
  }

  /** The GC never gives back an address that is bound or in flight. */
  lemma GcReleasesUnused(c: Config, s: State, e: Eni)
    requires GcWaits(c) && Reachable(c, s) && Enabled(c, s, GcRelease(e))
    ensures Unused(c, s, s.proc.todo[0])
  {
    ReachableSafe(c, s);
    forall p ensures !Uses(c, s, p, s.proc.todo[0]) {
      assert s.proc.todo[0] in s.proc.todo;
    }
  }

  /** ADD hands off only addresses that EC2 still has on this node, whatever metadata shows. */
  lemma HandsOffOwned(c: Config, s: State, p: PodId, io: Io)
    requires ListWaits(c) && Reachable(c, s) && !s.spoiled && Enabled(c, s, HandOff(p, io))
    ensures s.proc.ip in s.owner
  {
    ReachableSafe(c, s);
  }

  /** From its hand-off until its DEL, a pod's address is its own and stays with this node. */
  lemma LivePodsKeepTheirAddress(c: Config, s: State, p: PodId)
    requires AllWait(c) && Reachable(c, s) && !s.spoiled && !c.regrants.Always?
    requires InUse(c, s, p) && !s.pods[p].Native? && p !in s.deleted
    ensures s.pods[p].ip in s.owner
    ensures forall q | InUse(c, s, q) && q != p :: s.pods[q].ip != s.pods[p].ip
  {
    ReachableSafe(c, s);
  }
}
