/**
 * The delays of `PodSafety` cannot be shortened: for every configuration that waits one nanosecond
 * less, a run of the same machine breaks the guarantee.  Together with `PodSafety` this decides,
 * from the six delays and from when EC2 grants an address again, which configurations are safe.
 */
module PodTightness {
  import opened Wrap
  import opened JsonTime
  import opened RegistryFile
  import opened PodLifecycle
  import PodSafety

  ghost predicate AlwaysExclusive(c: Config) {
    forall s | Reachable(c, s) :: PodSafety.Exclusive(c, s)
  }

  ghost predicate ExclusiveUnlessSpoiled(c: Config) {
    forall s | Reachable(c, s) && !s.spoiled :: PodSafety.Exclusive(c, s)
  }

  ghost predicate GcAlwaysSafe(c: Config) {
    forall s, e | Reachable(c, s) && Enabled(c, s, GcRelease(e)) :: Unused(c, s, s.proc.todo[0])
  }

  ghost predicate OwnedWithoutGc(c: Config) {
    forall s, p, io | ReachableWithoutGc(c, s) && !s.spoiled && Enabled(c, s, HandOff(p, io)) :: s.proc.ip in s.owner
  }

  ghost predicate AlwaysOwned(c: Config) {
    forall s, p, io | Reachable(c, s) && !s.spoiled && Enabled(c, s, HandOff(p, io)) :: s.proc.ip in s.owner
  }

  /** Delays are durations, and the decision's delay since the metadata read includes the snapshot's. */
  predicate Durations(c: Config) {
    0 <= c.bindDelay && 0 <= c.decideDelay <= c.listDelay && 0 <= c.lag
  }

  lemma {:induction false} RunsExtend(c: Config, s0: State, acts: seq<Action>, s: State, a: Action)
    requires Runs(c, s0, acts, s) && Enabled(c, s, a)
    ensures Runs(c, s0, acts + [a], Step(c, s, a))
    decreases |acts|
  {
    if acts == [] {
      assert acts + [a] == [a];
      assert Runs(c, Step(c, s, a), [], Step(c, s, a));
    } else {
      RunsExtend(c, Step(c, s0, acts[0]), acts[1..], s, a);
      assert (acts + [a])[1..] == acts[1..] + [a];
    }
  }

  lemma ReachStep(c: Config, s: State, a: Action)
    requires Reachable(c, s) && Enabled(c, s, a)
    ensures Reachable(c, Step(c, s, a))
  {
    var s0, acts :| Init(c, s0) && Runs(c, s0, acts, s);
    RunsExtend(c, s0, acts, s, a);
  }

  /**
   * Any property of states that holds initially and is kept by every step, except that the GC need not
   * begin.  The runs below are built for an arbitrary one, so that what they reach is reached whatever
   * else is known of it.
   */
  ghost predicate Closed(c: Config, reached: State -> bool) {
    && (forall s | Init(c, s) :: reached(s))
    && (forall s, a {:trigger Step(c, s, a)} | reached(s) && Enabled(c, s, a) && !a.GcBegin? :: reached(Step(c, s, a)))
  }

  ghost predicate ClosedWithGc(c: Config, reached: State -> bool) {
    && Closed(c, reached)
    && (forall s {:trigger Step(c, s, GcBegin)} | reached(s) && Enabled(c, s, GcBegin) :: reached(Step(c, s, GcBegin)))
  }

  lemma ReachableClosed(c: Config)
    ensures ClosedWithGc(c, s => Reachable(c, s))
  {
    forall s | Init(c, s) ensures Reachable(c, s) {
      assert Runs(c, s, [], s);
    }
    forall s, a | Reachable(c, s) && Enabled(c, s, a) ensures Reachable(c, Step(c, s, a)) {
      ReachStep(c, s, a);
    }
  }

  /** Reachable without any run of the GC. */
  ghost predicate ReachableWithoutGc(c: Config, s: State) {
    exists s0, acts: seq<Action> :: Init(c, s0) && Runs(c, s0, acts, s) && forall a | a in acts :: !a.GcBegin?
  }

  lemma WithoutGcClosed(c: Config)
    ensures Closed(c, s => ReachableWithoutGc(c, s))
  {
    forall s | Init(c, s) ensures ReachableWithoutGc(c, s) {
      assert Runs(c, s, [], s);
    }
    forall s, a | ReachableWithoutGc(c, s) && Enabled(c, s, a) && !a.GcBegin? ensures ReachableWithoutGc(c, Step(c, s, a)) {
      StepWithoutGc(c, s, a);
    }
  }

  lemma StepWithoutGc(c: Config, s: State, a: Action)
    requires ReachableWithoutGc(c, s) && Enabled(c, s, a) && !a.GcBegin?
    ensures ReachableWithoutGc(c, Step(c, s, a))
  {
    var s0, acts: seq<Action> :| Init(c, s0) && Runs(c, s0, acts, s) && forall b | b in acts :: !b.GcBegin?;
    RunsExtend(c, s0, acts, s, a);
    assert forall b | b in acts + [a] :: !b.GcBegin?;
  }

  // ----- One address on one interface -----

  const X: IP := 1
  const ENI: Eni := 0

  const EMPTY := Saved(map[])

  /** The file of a registry that knows only `X`. */
  function Registered(t: Instant): File {
    Saved(map[X := t])
  }

  /** What EC2 and metadata have, and what the run is remembered for. */
  datatype Cloud = Cloud(
    owner: map<IP, Eni>, meta: set<Shown>, removedAt: map<Shown, Instant>, deleted: set<PodId>, spoiled: bool)

  const HELD := Cloud(map[X := ENI], {(ENI, X)}, map[], {}, false)

  /** `X` was taken away at `u`; metadata still shows it. */
  function Lost(u: Instant): Cloud {
    Cloud(map[], {(ENI, X)}, map[(ENI, X) := u], {}, false)
  }

  function Hidden(cloud: Cloud): Cloud {
    cloud.(meta := {})
  }

  function Node(now: Instant, file: File, pods: map<PodId, Pod>, cloud: Cloud, proc: Proc): State {
    State(now, now, file, pods, cloud.owner, cloud.meta, cloud.removedAt, proc, cloud.deleted, cloud.spoiled)
  }

  /** An instant beyond both waits, one nanosecond before a whole second. */
  function Late(c: Config): (h: Instant)
    ensures c.reuseWait < h && c.freeAfter < h && 0 < h
    ensures Stored(h) == h - SECOND + 1
  {
    var k := (if 0 < c.reuseWait then c.reuseWait else 0) + (if 0 < c.freeAfter then c.freeAfter else 0);
    k * SECOND + SECOND - 1
  }

  lemma Files(t: Instant)
    ensures Decode(EMPTY) == map[]
    ensures X in Decode(Registered(t))
    ensures Write(EMPTY, X, Some(t), Committed) == Registered(t)
    ensures forall u :: Write(Registered(u), X, Some(t), Committed) == Registered(t)
    ensures forall u :: Write(Registered(u), X, None, Committed) == EMPTY
  {
    assert Floored(map[]) == map[];
    assert Floored(map[X := t]) == map[X := Stored(t)];
    forall u
      ensures Updated(Decode(Registered(u)), X, Some(t)) == map[X := t]
      ensures Updated(Decode(Registered(u)), X, None) == map[]
    {
    }
  }

  lemma RegisteredAt(t: Instant)
    ensures X in Decode(Registered(t)) && Decode(Registered(t))[X] == Stored(t)
  {
  }

  lemma Start(c: Config, reached: State -> bool)
    requires Closed(c, reached)
    ensures reached(Node(Late(c), Registered(EPOCH), map[], HELD, Idle))
  {
    var s := Node(Late(c), Registered(EPOCH), map[], HELD, Idle);
    Files(EPOCH);
    FlooredWhole(map[X := EPOCH]);
    assert Init(c, s);
  }

  lemma Take(c: Config, reached: State -> bool, s: State, a: Action, s': State)
    requires Closed(c, reached) && reached(s) && Enabled(c, s, a) && Step(c, s, a) == s' && !a.GcBegin?
    ensures reached(s')
  {
  }

  lemma Begin(c: Config, reached: State -> bool, now: Instant, file: File, pods: map<PodId, Pod>, cloud: Cloud)
    requires Closed(c, reached) && reached(Node(now, file, pods, cloud, Idle)) && (ENI, X) in cloud.meta
    ensures reached(Node(now, file, pods, cloud, AddListed(now, [X])))
  {
    Take(c, reached, Node(now, file, pods, cloud, Idle), AddBegin, Node(now, file, pods, cloud, AddBegun));
    BeginList(c, reached, now, file, pods, cloud);
  }

  lemma BeginList(c: Config, reached: State -> bool, now: Instant, file: File, pods: map<PodId, Pod>, cloud: Cloud)
    requires Closed(c, reached) && reached(Node(now, file, pods, cloud, AddBegun)) && (ENI, X) in cloud.meta
    ensures reached(Node(now, file, pods, cloud, AddListed(now, [X])))
  {
    assert (ENI, X) in Node(now, file, pods, cloud, AddBegun).meta;
    Take(c, reached, Node(now, file, pods, cloud, AddBegun), AddList([X]), Node(now, file, pods, cloud, AddListed(now, [X])));
  }

  /** Time passes before the next ADD begins. */
  lemma BeginLater(c: Config, reached: State -> bool, now: Instant, d: nat, file: File, pods: map<PodId, Pod>, cloud: Cloud)
    requires Closed(c, reached) && reached(Node(now, file, pods, cloud, Idle))
    requires LagHolds(c, Node(now, file, pods, cloud, Idle), now + d)
    ensures reached(Node(now + d, file, pods, cloud, AddBegun))
  {
    var s := Node(now, file, pods, cloud, Idle);
    Pass(c, reached, s, d);
    Take(c, reached, s.(now := now + d), AddBegin, Node(now + d, file, pods, cloud, AddBegun));
  }

  /** Time passes before the next GC begins. */
  lemma BeginGcLater(c: Config, reached: State -> bool, now: Instant, d: nat, file: File, pods: map<PodId, Pod>)
    requires ClosedWithGc(c, reached) && reached(Node(now, file, pods, HELD, Idle))
    ensures reached(Node(now + d, file, pods, HELD, GcBegun))
  {
    var s := Node(now, file, pods, HELD, Idle);
    Pass(c, reached, s, d);
    assert Step(c, s.(now := now + d), GcBegin) == Node(now + d, file, pods, HELD, GcBegun);
  }

  lemma Snapshot(c: Config, reached: State -> bool, metaAt: Instant, now: Instant, file: File, pods: map<PodId, Pod>, cloud: Cloud)
    requires Closed(c, reached) && reached(Node(now, file, pods, cloud, AddListed(metaAt, [X]))) && BoundIps(pods) == {}
    ensures reached(Node(now, file, pods, cloud, AddScan(metaAt, now, [X], {}, [])))
  {
    Take(c, reached, Node(now, file, pods, cloud, AddListed(metaAt, [X])), AddSnapshot,
         Node(now, file, pods, cloud, AddScan(metaAt, now, [X], {}, [])));
  }

  lemma ScanKnown(c: Config, reached: State -> bool, metaAt: Instant, now: Instant, t: Instant, pods: map<PodId, Pod>, cloud: Cloud)
    requires Closed(c, reached) && reached(Node(now, Registered(t), pods, cloud, AddListed(metaAt, [X]))) && BoundIps(pods) == {}
    ensures reached(Node(now, Registered(t), pods, cloud, AddScan(metaAt, now, [], {}, [X])))
  {
    Snapshot(c, reached, metaAt, now, Registered(t), pods, cloud);
    Files(t);
    var one: seq<IP> := [X];
    assert one[1..] == [] && [] + one == one;
    Take(c, reached, Node(now, Registered(t), pods, cloud, AddScan(metaAt, now, [X], {}, [])), ScanOne(false, now, Committed),
         Node(now, Registered(t), pods, cloud, AddScan(metaAt, now, [], {}, [X])));
  }

  lemma ScanUnknown(c: Config, reached: State -> bool, now: Instant, pods: map<PodId, Pod>, cloud: Cloud)
    requires Closed(c, reached) && reached(Node(now, EMPTY, pods, cloud, AddScan(now, now, [X], {}, [])))
    ensures reached(Node(now, Registered(now), pods, cloud, AddScan(now, now, [], {}, [X])))
  {
    Files(now);
    var one: seq<IP> := [X];
    assert one[1..] == [] && [] + one == one;
    Take(c, reached, Node(now, EMPTY, pods, cloud, AddScan(now, now, [X], {}, [])), ScanOne(false, now, Committed),
         Node(now, Registered(now), pods, cloud, AddScan(now, now, [], {}, [X])));
  }

  /** A whole ADD that registers `X` and then fails. */
  lemma ScanNew(c: Config, reached: State -> bool, now: Instant, pods: map<PodId, Pod>, cloud: Cloud)
    requires Closed(c, reached) && reached(Node(now, EMPTY, pods, cloud, Idle))
    requires (ENI, X) in cloud.meta && BoundIps(pods) == {}
    ensures reached(Node(now, Registered(now), pods, cloud, Idle))
  {
    Begin(c, reached, now, EMPTY, pods, cloud);
    Snapshot(c, reached, now, now, EMPTY, pods, cloud);
    ScanUnknown(c, reached, now, pods, cloud);
    Take(c, reached, Node(now, Registered(now), pods, cloud, AddScan(now, now, [], {}, [X])), Stop,
         Node(now, Registered(now), pods, cloud, Idle));
  }

  lemma Pass(c: Config, reached: State -> bool, s: State, d: nat)
    requires Closed(c, reached) && reached(s) && LagHolds(c, s, s.now + d)
    ensures reached(s.(now := s.now + d))
  {
    Take(c, reached, s, Tick(d), s.(now := s.now + d));
  }

  lemma DecideNow(c: Config, reached: State -> bool, s: State)
    requires Closed(c, reached) && reached(s) && s.proc.AddScan? && s.since <= s.now
    requires s.proc.todo == [] && s.proc.free == [X]
    requires s.now <= s.proc.snapAt + c.decideDelay && s.now <= s.proc.metaAt + c.listDelay
    requires AgedBefore(Decode(s.file), X, s.now - c.reuseWait)
    ensures reached(s.(since := s.now, proc := AddChose(X)))
  {
    Take(c, reached, s, Reuse(X, s.now), s.(since := s.now, proc := AddChose(X)));
  }

  lemma Decide(c: Config, reached: State -> bool, metaAt: Instant, now: Instant, d: nat, t: Instant, pods: map<PodId, Pod>, cloud: Cloud)
    requires Closed(c, reached) && reached(Node(now, Registered(t), pods, cloud, AddScan(metaAt, now, [], {}, [X])))
    requires LagHolds(c, Node(now, Registered(t), pods, cloud, AddScan(metaAt, now, [], {}, [X])), now + d)
    requires d <= c.decideDelay && now + d <= metaAt + c.listDelay && Stored(t) < now + d - c.reuseWait
    ensures reached(Node(now + d, Registered(t), pods, cloud, AddChose(X)))
  {
    RegisteredAt(t);
    var s := Node(now, Registered(t), pods, cloud, AddScan(metaAt, now, [], {}, [X]));
    Pass(c, reached, s, d);
    DecideNow(c, reached, s.(now := now + d));
  }

  lemma Settle(c: Config, reached: State -> bool, now: Instant, t: Instant, pods: map<PodId, Pod>, cloud: Cloud)
    requires Closed(c, reached) && reached(Node(now, Registered(t), pods, cloud, AddChose(X)))
    ensures reached(Node(now, Registered(now), pods, cloud, AddReady(X)))
  {
    Files(now);
    Take(c, reached, Node(now, Registered(t), pods, cloud, AddChose(X)), Restamp(now, Committed),
         Node(now, Registered(now), pods, cloud, AddReady(X)));
  }

  lemma Give(c: Config, reached: State -> bool, now: Instant, p: PodId, pods: map<PodId, Pod>, cloud: Cloud)
    requires Closed(c, reached) && reached(Node(now, Registered(now), pods, cloud, AddReady(X)))
    requires p !in pods && p !in cloud.deleted
    ensures reached(Node(now, EMPTY, pods[p := Handed(X, now)], cloud, Idle))
  {
    Files(now);
    Take(c, reached, Node(now, Registered(now), pods, cloud, AddReady(X)), HandOff(p, Committed),
         Node(now, EMPTY, pods[p := Handed(X, now)], cloud, Idle));
  }

  /** Pod 0 was just handed `X`, and the next ADD already found `X` unbound and registered it again. */
  lemma InFlightAndRegistered(c: Config, reached: State -> bool)
    requires Durations(c) && Closed(c, reached)
    ensures var h := Late(c); reached(Node(h, Registered(h), map[0 := Handed(X, h)], HELD, Idle))
  {
    var h := Late(c);
    Start(c, reached);
    Begin(c, reached, h, Registered(EPOCH), map[], HELD);
    ScanKnown(c, reached, h, h, EPOCH, map[], HELD);
    Decide(c, reached, h, h, 0, EPOCH, map[], HELD);
    Settle(c, reached, h, EPOCH, map[], HELD);
    Give(c, reached, h, 0, map[], HELD);
    ScanNew(c, reached, h, map[0 := Handed(X, h)], HELD);
  }

  lemma BindZero(c: Config, reached: State -> bool, now: Instant, h: Instant, proc: Proc)
    requires Closed(c, reached) && reached(Node(now, Registered(h), map[0 := Handed(X, h)], HELD, proc))
    requires now <= h + c.bindDelay
    ensures reached(Node(now, Registered(h), map[0 := Bound(X, h)], HELD, proc))
  {
    var s := Node(now, Registered(h), map[0 := Handed(X, h)], HELD, proc);
    assert s.pods[0 := Bound(X, h)] == map[0 := Bound(X, h)];
    Take(c, reached, s, Bind(0), Node(now, Registered(h), map[0 := Bound(X, h)], HELD, proc));
  }

  function TwoOwnersState(c: Config): State {
    var t := Late(c) + c.bindDelay + c.decideDelay;
    Node(t, EMPTY, map[0 := Bound(X, Late(c)), 1 := Handed(X, t)], HELD, Idle)
  }

  lemma BoundMidScan(c: Config, reached: State -> bool)
    requires Durations(c) && Closed(c, reached)
    ensures
      var h, t := Late(c), Late(c) + c.bindDelay;
      reached(Node(t, Registered(h), map[0 := Bound(X, h)], HELD, AddScan(t, t, [], {}, [X])))
  {
    var h, t, inFlight := Late(c), Late(c) + c.bindDelay, map[0 := Handed(X, Late(c))];
    InFlightAndRegistered(c, reached);
    BeginLater(c, reached, h, c.bindDelay, Registered(h), inFlight, HELD);
    BeginList(c, reached, t, Registered(h), inFlight, HELD);
    ScanKnown(c, reached, t, t, h, inFlight, HELD);
    BindZero(c, reached, t, h, AddScan(t, t, [], {}, [X]));
  }

  /** The pod binds at its deadline, just after the snapshot of an ADD that decides at its own. */
  lemma BoundIsChosen(c: Config, reached: State -> bool)
    requires Durations(c) && !PodSafety.AddWaits(c) && Closed(c, reached)
    ensures
      var h, t := Late(c), Late(c) + c.bindDelay + c.decideDelay;
      reached(Node(t, Registered(h), map[0 := Bound(X, h)], HELD, AddChose(X)))
  {
    var h, d := Late(c), c.decideDelay;
    var t := h + c.bindDelay;
    BoundMidScan(c, reached);
    Decide(c, reached, t, t, d, h, map[0 := Bound(X, h)], HELD);
  }

  lemma TwoOwnersRun(c: Config, reached: State -> bool)
    requires Durations(c) && !PodSafety.AddWaits(c) && Closed(c, reached)
    ensures reached(TwoOwnersState(c))
  {
    var h, t := Late(c), Late(c) + c.bindDelay + c.decideDelay;
    var bound := map[0 := Bound(X, h)];
    BoundIsChosen(c, reached);
    Settle(c, reached, t, h, bound, HELD);
    Give(c, reached, t, 1, bound, HELD);
    assert bound[1 := Handed(X, t)] == map[0 := Bound(X, h), 1 := Handed(X, t)];
  }

  /** From an aged registration of an unbound `X` up to the GC being about to release it. */
  lemma Collect(c: Config, reached: State -> bool, now: Instant, t: Instant, pods: map<PodId, Pod>)
    requires Closed(c, reached) && reached(Node(now, Registered(t), pods, HELD, GcBegun)) && BoundIps(pods) == {}
    requires Stored(t) < now - c.freeAfter
    ensures reached(Node(now, Registered(t), pods, HELD, GcRun([X], {})))
  {
    RegisteredAt(t);
    Take(c, reached, Node(now, Registered(t), pods, HELD, GcBegun), GcCollect([X], now, c.freeAfter),
         Node(now, Registered(t), pods, HELD, GcAged([X])));
    Take(c, reached, Node(now, Registered(t), pods, HELD, GcAged([X])), GcSnapshot,
         Node(now, Registered(t), pods, HELD, GcRun([X], {})));
  }

  function ReleasingState(c: Config): State {
    Node(Late(c) + c.bindDelay, Registered(Late(c)), map[0 := Handed(X, Late(c))], HELD, GcRun([X], {}))
  }

  lemma ReleasingRun(c: Config, reached: State -> bool)
    requires Durations(c) && !PodSafety.GcWaits(c) && ClosedWithGc(c, reached)
    ensures reached(ReleasingState(c))
  {
    var h := Late(c);
    InFlightAndRegistered(c, reached);
    BeginGcLater(c, reached, h, c.bindDelay, Registered(h), map[0 := Handed(X, h)]);
    Collect(c, reached, h + c.bindDelay, h, map[0 := Handed(X, h)]);
  }

  /** The GC gives `X` back, and the next ADD registers it again because metadata still shows it. */
  lemma LostAndRegistered(c: Config, reached: State -> bool)
    requires ClosedWithGc(c, reached)
    ensures var h := Late(c); reached(Node(h, Registered(h), map[], Lost(h), Idle))
  {
    var h := Late(c);
    Released(c, reached);
    ReleaseRecorded(c, reached, h);
    ScanNew(c, reached, h, map[], Lost(h));
  }

  function ReleasedState(now: Instant): State {
    Node(now, Registered(EPOCH), map[], Lost(now), GcReleased(X, true, [], {}))
  }

  lemma Released(c: Config, reached: State -> bool)
    requires ClosedWithGc(c, reached)
    ensures reached(ReleasedState(Late(c)))
  {
    var h := Late(c);
    Start(c, reached);
    BeginGcLater(c, reached, h, 0, Registered(EPOCH), map[]);
    Collect(c, reached, h, EPOCH, map[]);
    var one: seq<IP> := [X];
    assert one[1..] == [];
    assert HELD.owner - {X} == map[];
    Take(c, reached, Node(h, Registered(EPOCH), map[], HELD, GcRun([X], {})), GcRelease(ENI), ReleasedState(h));
  }

  lemma ReleaseRecorded(c: Config, reached: State -> bool, now: Instant)
    requires Closed(c, reached) && reached(ReleasedState(now))
    ensures reached(Node(now, EMPTY, map[], Lost(now), Idle))
  {
    Files(EPOCH);
    var s := Node(now, EMPTY, map[], Lost(now), GcRun([], {}));
    Take(c, reached, ReleasedState(now), GcForget(Committed), s);
    StopNow(c, reached, s);
  }

  lemma StopNow(c: Config, reached: State -> bool, s: State)
    requires Closed(c, reached) && reached(s) && !s.proc.Idle? && !Unrecorded(s.proc)
    ensures reached(s.(proc := Idle))
  {
    Take(c, reached, s, Stop, s.(proc := Idle));
  }

  /** Metadata drops `X` and the clock moves on before the snapshot is taken. */
  lemma HideAndWait(c: Config, reached: State -> bool, u: Instant, now: Instant, d: nat, pods: map<PodId, Pod>, cloud: Cloud)
    requires BoundIps(pods) == {}
    requires Closed(c, reached) && reached(Node(now, Registered(u), pods, cloud, AddListed(now, [X])))
    requires cloud.meta == {(ENI, X)} && (X in cloud.owner ==> cloud.owner[X] != ENI)
    ensures reached(Node(now + d, Registered(u), pods, Hidden(cloud), AddScan(now, now + d, [X], {}, [])))
  {
    var proc := AddListed(now, [X]);
    var s := Node(now, Registered(u), pods, cloud, proc);
    var s1 := Node(now, Registered(u), pods, Hidden(cloud), proc);
    assert cloud.meta - {(ENI, X)} == {};
    assert !OnEni(s, ENI, X);
    Take(c, reached, s, Hide(ENI, X), s1);
    Take(c, reached, s1, Tick(d), s1.(now := now + d));
    LateSnapshot(c, reached, u, now, d, pods, Hidden(cloud));
  }

  lemma LateSnapshot(c: Config, reached: State -> bool, u: Instant, now: Instant, d: nat, pods: map<PodId, Pod>, cloud: Cloud)
    requires Closed(c, reached) && BoundIps(pods) == {}
    requires reached(Node(now, Registered(u), pods, cloud, AddListed(now, [X])).(now := now + d))
    ensures reached(Node(now + d, Registered(u), pods, cloud, AddScan(now, now + d, [X], {}, [])))
  {
    var s := Node(now, Registered(u), pods, cloud, AddListed(now, [X])).(now := now + d);
    Take(c, reached, s, AddSnapshot, Node(now + d, Registered(u), pods, cloud, AddScan(now, now + d, [X], {}, [])));
  }

  lemma ScanLost(c: Config, reached: State -> bool, metaAt: Instant, now: Instant, u: Instant, pods: map<PodId, Pod>, cloud: Cloud)
    requires Closed(c, reached)
    requires reached(Node(now, Registered(u), pods, cloud, AddScan(metaAt, now, [X], {}, [])))
    ensures reached(Node(now, Registered(u), pods, cloud, AddScan(metaAt, now, [], {}, [X])))
  {
    Files(u);
    var one: seq<IP> := [X];
    assert one[1..] == [] && [] + one == one;
    Take(c, reached, Node(now, Registered(u), pods, cloud, AddScan(metaAt, now, [X], {}, [])),
         ScanOne(false, now, Committed), Node(now, Registered(u), pods, cloud, AddScan(metaAt, now, [], {}, [X])));
  }

  /** The address was taken off its interface at `u`; by now it may be on another one. */
  predicate TakenAt(cloud: Cloud, u: Instant) {
    && cloud.meta == {(ENI, X)}
    && cloud.removedAt == map[(ENI, X) := u]
    && (X in cloud.owner ==> cloud.owner[X] != ENI)
  }

  lemma LateScan(c: Config, reached: State -> bool, u: Instant, pods: map<PodId, Pod>, cloud: Cloud)
    requires BoundIps(pods) == {}
    requires Durations(c) && Closed(c, reached)
    requires TakenAt(cloud, u) && reached(Node(u, Registered(u), pods, cloud, Idle))
    ensures
      var now := u + c.lag + (c.listDelay - c.decideDelay);
      reached(Node(now, Registered(u), pods, Hidden(cloud), AddScan(u + c.lag, now, [], {}, [X])))
  {
    var t, before := u + c.lag, c.listDelay - c.decideDelay;
    BeginLater(c, reached, u, c.lag, Registered(u), pods, cloud);
    BeginList(c, reached, t, Registered(u), pods, cloud);
    HideAndWait(c, reached, u, t, before, pods, cloud);
    ScanLost(c, reached, t, t + before, u, pods, Hidden(cloud));
  }

  lemma DecideLate(c: Config, reached: State -> bool, t: Instant, u: Instant, pods: map<PodId, Pod>, cloud: Cloud)
    requires Durations(c) && Closed(c, reached) && cloud.meta == {} && Stored(u) < t + c.listDelay - c.reuseWait
    requires
      var now := t + (c.listDelay - c.decideDelay);
      reached(Node(now, Registered(u), pods, cloud, AddScan(t, now, [], {}, [X])))
    ensures reached(Node(t + c.listDelay, Registered(u), pods, cloud, AddChose(X)))
  {
    Decide(c, reached, t, t + (c.listDelay - c.decideDelay), c.decideDelay, u, pods, cloud);
  }

  /** Where ADD has chosen `X` long after it was taken away. */
  function LateReady(c: Config, u: Instant, pods: map<PodId, Pod>, cloud: Cloud): State {
    var t := u + c.lag + c.listDelay;
    Node(t, Registered(t), pods, Hidden(cloud), AddReady(X))
  }

  /** Metadata shows `X` for as long as it may, and ADD then takes all the time it has. */
  lemma LateChoice(c: Config, reached: State -> bool, u: Instant, pods: map<PodId, Pod>, cloud: Cloud)
    requires BoundIps(pods) == {}
    requires Durations(c) && Closed(c, reached) && Stored(u) < u + c.lag + c.listDelay - c.reuseWait
    requires TakenAt(cloud, u) && reached(Node(u, Registered(u), pods, cloud, Idle))
    ensures reached(LateReady(c, u, pods, cloud))
  {
    LateScan(c, reached, u, pods, cloud);
    DecideLate(c, reached, u + c.lag, u, pods, Hidden(cloud));
    Settle(c, reached, u + c.lag + c.listDelay, u, pods, Hidden(cloud));
  }

  lemma LostRun(c: Config, reached: State -> bool)
    requires Durations(c) && !PodSafety.ListWaits(c) && ClosedWithGc(c, reached)
    ensures reached(LateReady(c, Late(c), map[], Lost(Late(c))))
  {
    LostAndRegistered(c, reached);
    LateChoice(c, reached, Late(c), map[], Lost(Late(c)));
  }

  // ----- The same with DEL instead of the GC -----

  /** `X` was handed to pod 0 at `h` and is bound there. */
  lemma HandedAndBound(c: Config, reached: State -> bool)
    requires Durations(c) && Closed(c, reached)
    ensures var h := Late(c); reached(Node(h, EMPTY, map[0 := Bound(X, h)], HELD, Idle))
  {
    var h := Late(c);
    Start(c, reached);
    Begin(c, reached, h, Registered(EPOCH), map[], HELD);
    ScanKnown(c, reached, h, h, EPOCH, map[], HELD);
    Decide(c, reached, h, h, 0, EPOCH, map[], HELD);
    Settle(c, reached, h, EPOCH, map[], HELD);
    Give(c, reached, h, 0, map[], HELD);
    var s := Node(h, EMPTY, map[0 := Handed(X, h)], HELD, Idle);
    assert map[][0 := Handed(X, h)] == s.pods && s.pods[0 := Bound(X, h)] == map[0 := Bound(X, h)];
    Take(c, reached, s, Bind(0), Node(h, EMPTY, map[0 := Bound(X, h)], HELD, Idle));
  }

  /** What DEL leaves: `X` was taken away at `u`, and pod 0 is deleted. */
  function Deleted(u: Instant): Cloud {
    Lost(u).(deleted := {0})
  }

  lemma DelBegins(c: Config, reached: State -> bool, h: Instant, pods: map<PodId, Pod>)
    requires Closed(c, reached) && reached(Node(h, EMPTY, pods, HELD, Idle)) && pods == map[0 := Bound(X, h)]
    ensures reached(Node(h, EMPTY, pods, HELD.(deleted := {0}), DelRun(0, [X])))
  {
    assert {} + {0 as PodId} == {0};
    Take(c, reached, Node(h, EMPTY, pods, HELD, Idle), DelBegin(0),
         Node(h, EMPTY, pods, HELD.(deleted := {0}), DelRun(0, [X])));
  }

  /** DEL gives the pod's address back. */
  lemma DelReleases(c: Config, reached: State -> bool, h: Instant, pods: map<PodId, Pod>)
    requires Closed(c, reached) && reached(Node(h, EMPTY, pods, HELD.(deleted := {0}), DelRun(0, [X])))
    ensures reached(Node(h, EMPTY, pods, Deleted(h), DelReleased(0, X, true, [])))
  {
    var one: seq<IP> := [X];
    assert one[1..] == [] && HELD.owner - {X} == map[];
    Take(c, reached, Node(h, EMPTY, pods, HELD.(deleted := {0}), DelRun(0, [X])), DelRelease(ENI),
         Node(h, EMPTY, pods, Deleted(h), DelReleased(0, X, true, [])));
  }

  /** DEL records the address, and then the pod is gone. */
  lemma DelRecords(c: Config, reached: State -> bool, h: Instant, pods: map<PodId, Pod>)
    requires Closed(c, reached) && pods == map[0 := Bound(X, h)]
    requires reached(Node(h, EMPTY, pods, Deleted(h), DelReleased(0, X, true, [])))
    ensures reached(Node(h, Registered(h), map[0 := Ended], Deleted(h), Idle))
  {
    Files(h);
    var s := Node(h, Registered(h), pods, Deleted(h), DelRun(0, []));
    Take(c, reached, Node(h, EMPTY, pods, Deleted(h), DelReleased(0, X, true, [])), DelTrack(h, Committed), s);
    StopNow(c, reached, s);
    assert pods[0 := Ended] == map[0 := Ended];
    Take(c, reached, s.(proc := Idle), Vanish(0), Node(h, Registered(h), map[0 := Ended], Deleted(h), Idle));
  }

  /** An ADD chooses the address that DEL gave back, because metadata still showed it. */
  lemma DelLateRun(c: Config, reached: State -> bool)
    requires Durations(c) && !PodSafety.ListWaits(c) && Closed(c, reached)
    ensures reached(LateReady(c, Late(c), map[0 := Ended], Deleted(Late(c))))
  {
    var h := Late(c);
    HandedAndBound(c, reached);
    DelBegins(c, reached, h, map[0 := Bound(X, h)]);
    DelReleases(c, reached, h, map[0 := Bound(X, h)]);
    DelRecords(c, reached, h, map[0 := Bound(X, h)]);
    LateChoice(c, reached, h, map[0 := Ended], Deleted(h));
  }

  // ----- An address that is granted again while metadata shows its old place -----

  const OTHER: Eni := 1

  /** `X` is on another interface now. */
  function Regranted(cloud: Cloud): Cloud {
    cloud.(owner := map[X := OTHER])
  }

  /** An ADD that turns to EC2 at once. */
  lemma TurnToEc2(c: Config, reached: State -> bool, now: Instant, file: File, pods: map<PodId, Pod>, cloud: Cloud)
    requires Closed(c, reached) && reached(Node(now, file, pods, cloud, Idle))
    ensures reached(Node(now, file, pods, cloud, AddAsk))
  {
    Take(c, reached, Node(now, file, pods, cloud, Idle), AddBegin, Node(now, file, pods, cloud, AddBegun));
    Take(c, reached, Node(now, file, pods, cloud, AddBegun), NoReuse(false, now), Node(now, file, pods, cloud, AddAsk));
  }

  lemma AskOther(c: Config, reached: State -> bool, now: Instant, file: File, pods: map<PodId, Pod>, cloud: Cloud)
    requires Closed(c, reached) && reached(Node(now, file, pods, cloud, Idle)) && cloud.meta <= {(ENI, X)}
    ensures reached(Node(now, file, pods, cloud, AddAsked(OTHER, {})))
  {
    TurnToEc2(c, reached, now, file, pods, cloud);
    assert ShownOn(cloud.meta, OTHER) == {};
    Take(c, reached, Node(now, file, pods, cloud, AddAsk), AskList(OTHER), Node(now, file, pods, cloud, AddAsked(OTHER, {})));
  }

  /** An ADD is granted `X` on the other interface and fails. */
  lemma RegrantOnRequest(c: Config, reached: State -> bool, now: Instant, file: File, cloud: Cloud)
    requires Closed(c, reached) && reached(Node(now, file, map[], cloud, Idle))
    requires !c.regrants.Never? && cloud.owner == map[] && cloud.meta == {(ENI, X)}
    ensures reached(Node(now, file, map[], Regranted(cloud), Idle))
  {
    AskOther(c, reached, now, file, map[], cloud);
    var s := Node(now, file, map[], cloud, AddAsked(OTHER, {}));
    RegrantStep(c, reached, s);
    StopNow(c, reached, s.(owner := map[X := OTHER]));
  }

  lemma RegrantStep(c: Config, reached: State -> bool, s: State)
    requires Closed(c, reached) && reached(s) && !c.regrants.Never?
    requires s.owner == map[] && s.pods == map[] && s.proc == AddAsked(OTHER, {}) && s.since == s.now
    ensures reached(s.(owner := map[X := OTHER]))
  {
    assert Grant(map[], OTHER, {X}) == map[X := OTHER];
    Take(c, reached, s, AskGrant({X}), s.(owner := map[X := OTHER]));
  }

  /** An ADD creates the other interface with `X`, stamps it at the epoch, and fails. */
  lemma RegrantToNew(c: Config, reached: State -> bool, now: Instant, cloud: Cloud)
    requires Closed(c, reached) && reached(Node(now, EMPTY, map[], cloud, Idle)) && c.regrants.Always?
    requires cloud.owner == map[] && TakenAt(cloud, now)
    ensures reached(Node(now, Registered(EPOCH), map[], Regranted(cloud), Idle))
  {
    TurnToEc2(c, reached, now, EMPTY, map[], cloud);
    CreateStep(c, reached, Node(now, EMPTY, map[], cloud, AddAsk));
    StampCreated(c, reached, now, Regranted(cloud));
  }

  lemma StampCreated(c: Config, reached: State -> bool, now: Instant, cloud: Cloud)
    requires Closed(c, reached) && reached(Node(now, EMPTY, map[], cloud, AddCreated(OTHER, {X})))
    ensures reached(Node(now, Registered(EPOCH), map[], cloud, Idle))
  {
    Files(EPOCH);
    var s := Node(now, Registered(EPOCH), map[], cloud, AddCreated(OTHER, {X}));
    Take(c, reached, Node(now, EMPTY, map[], cloud, AddCreated(OTHER, {X})), EniStamp(X, Committed), s);
    StopNow(c, reached, s);
  }

  lemma CreateStep(c: Config, reached: State -> bool, s: State)
    requires Closed(c, reached) && reached(s) && c.regrants.Always?
    requires s.owner == map[] && s.pods == map[] && s.proc == AddAsk && s.since == s.now
    requires FreshEni(s, OTHER)
    ensures reached(s.(owner := map[X := OTHER], proc := AddCreated(OTHER, {X})))
  {
    assert Grant(map[], OTHER, {X}) == map[X := OTHER];
    Take(c, reached, s, EniCreate(OTHER, {X}), s.(owner := map[X := OTHER], proc := AddCreated(OTHER, {X})));
  }

  /** The old place of `X` is still listed, and its time in the registry is the epoch. */
  lemma ReuseListed(c: Config, reached: State -> bool, cloud: Cloud)
    requires Durations(c) && Closed(c, reached) && TakenAt(cloud, Late(c))
    requires reached(Node(Late(c), Registered(EPOCH), map[], cloud, Idle))
    ensures reached(Node(Late(c), Registered(Late(c)), map[], cloud, AddReady(X)))
  {
    var h := Late(c);
    Begin(c, reached, h, Registered(EPOCH), map[], cloud);
    ScanKnown(c, reached, h, h, EPOCH, map[], cloud);
    Decide(c, reached, h, h, 0, EPOCH, map[], cloud);
    Settle(c, reached, h, EPOCH, map[], cloud);
  }

  function SharedState(now: Instant, cloud: Cloud): State {
    Node(now, EMPTY, map[0 := Handed(X, now), 1 := Handed(X, now)], cloud.(meta := cloud.meta + {(OTHER, X)}), Idle)
  }

  /** The next ADD waits on the other interface until metadata shows `X` there, and takes it for new. */
  lemma PollShown(c: Config, reached: State -> bool, now: Instant, pods: map<PodId, Pod>, cloud: Cloud)
    requires Closed(c, reached) && reached(Node(now, EMPTY, pods, cloud, Idle))
    requires cloud.owner == map[X := OTHER] && (OTHER, X) !in cloud.meta && cloud.meta <= {(ENI, X)}
    ensures
      var shown := cloud.(meta := cloud.meta + {(OTHER, X)});
      reached(Node(now, EMPTY, pods, shown, AddGot(OTHER, {}, [X], None)))
  {
    AskOther(c, reached, now, EMPTY, pods, cloud);
    var asked, shown := AddAsked(OTHER, {}), cloud.(meta := cloud.meta + {(OTHER, X)});
    Take(c, reached, Node(now, EMPTY, pods, cloud, asked), Show(OTHER, X), Node(now, EMPTY, pods, shown, asked));
    Take(c, reached, Node(now, EMPTY, pods, shown, asked), AskPoll([X]),
         Node(now, EMPTY, pods, shown, AddGot(OTHER, {}, [X], None)));
  }

  lemma TrackShown(c: Config, reached: State -> bool, now: Instant, pods: map<PodId, Pod>, cloud: Cloud)
    requires Closed(c, reached) && reached(Node(now, EMPTY, pods, cloud, AddGot(OTHER, {}, [X], None)))
    ensures reached(Node(now, Registered(now), pods, cloud, AddReady(X)))
  {
    Files(now);
    var one: seq<IP> := [X];
    assert one[1..] == [];
    var s := Node(now, Registered(now), pods, cloud, AddGot(OTHER, {}, [], Some(X)));
    Take(c, reached, Node(now, EMPTY, pods, cloud, AddGot(OTHER, {}, [X], None)), AskTrack(false, now, Committed), s);
    Take(c, reached, s, AskDone, Node(now, Registered(now), pods, cloud, AddReady(X)));
  }

  lemma ShareRun(c: Config, reached: State -> bool, now: Instant, cloud: Cloud)
    requires Closed(c, reached) && reached(Node(now, Registered(now), map[], cloud, AddReady(X)))
    requires cloud.owner == map[X := OTHER] && (OTHER, X) !in cloud.meta && cloud.meta <= {(ENI, X)}
    requires cloud.deleted == {}
    ensures reached(SharedState(now, cloud))
  {
    var one := map[0 := Handed(X, now)];
    Give(c, reached, now, 0, map[], cloud);
    assert map[][0 := Handed(X, now)] == one;
    PollShown(c, reached, now, one, cloud);
    var shown := cloud.(meta := cloud.meta + {(OTHER, X)});
    TrackShown(c, reached, now, one, shown);
    Give(c, reached, now, 1, one, shown);
    assert one[1 := Handed(X, now)] == map[0 := Handed(X, now), 1 := Handed(X, now)];
  }

  lemma SharedIsShared(c: Config, now: Instant, cloud: Cloud)
    requires Durations(c)
    ensures !PodSafety.Exclusive(c, SharedState(now, cloud))
  {
    assert InUse(c, SharedState(now, cloud), 0) && InUse(c, SharedState(now, cloud), 1);
  }

  /** The GC dies between releasing `X` and recording it, and `X` is granted again. */
  lemma SpoiledRun(c: Config, reached: State -> bool)
    requires Durations(c) && !c.regrants.Never? && ClosedWithGc(c, reached)
    ensures exists cloud :: reached(SharedState(Late(c), cloud))
  {
    var h := Late(c);
    var spoiled := Lost(h).(spoiled := true);
    Released(c, reached);
    Take(c, reached, ReleasedState(h), Stop, Node(h, Registered(EPOCH), map[], spoiled, Idle));
    RegrantOnRequest(c, reached, h, Registered(EPOCH), spoiled);
    ReuseListed(c, reached, Regranted(spoiled));
    ShareRun(c, reached, h, Regranted(spoiled));
  }

  /** `X` is granted to a new interface, whose stamp at the epoch makes its old place look reusable. */
  lemma NewInterfaceRun(c: Config, reached: State -> bool)
    requires Durations(c) && c.regrants.Always? && ClosedWithGc(c, reached)
    ensures reached(SharedState(Late(c), Regranted(Lost(Late(c)))))
  {
    var h := Late(c);
    Released(c, reached);
    ReleaseRecorded(c, reached, h);
    RegrantToNew(c, reached, h, Lost(h));
    ReuseListed(c, reached, Regranted(Lost(h)));
    ShareRun(c, reached, h, Regranted(Lost(h)));
  }

  /** `X` is granted again, and its release is old enough although metadata just showed its old place. */
  lemma LateRun(c: Config, reached: State -> bool)
    requires Durations(c) && !PodSafety.ListWaits(c) && !c.regrants.Never? && ClosedWithGc(c, reached)
    ensures exists now, cloud: Cloud :: !cloud.spoiled && reached(SharedState(now, cloud))
  {
    var h := Late(c);
    LostAndRegistered(c, reached);
    RegrantOnRequest(c, reached, h, Registered(h), Lost(h));
    LateChoice(c, reached, h, map[], Regranted(Lost(h)));
    var cloud := Hidden(Regranted(Lost(h)));
    ShareRun(c, reached, h + c.lag + c.listDelay, cloud);
    assert !cloud.spoiled;
  }

  // ----- Which configurations are safe -----

  /**
   * Pods never share an address exactly when the reuse wait covers binding, deciding and rounding and
   * EC2 never grants what metadata shows elsewhere.
   */
  lemma ExclusiveIff(c: Config)
    requires Durations(c)
    ensures AlwaysExclusive(c) <==> c.bindDelay + c.decideDelay + SECOND - 1 <= c.reuseWait && c.regrants.Never?
  {
    ReachableClosed(c);
    if !PodSafety.AddWaits(c) {
      TwoOwnersRun(c, s => Reachable(c, s));
      TwoOwnersShare(c);
    } else if !c.regrants.Never? {
      SpoiledRun(c, s => Reachable(c, s));
      var cloud :| Reachable(c, SharedState(Late(c), cloud));
      SharedIsShared(c, Late(c), cloud);
    } else {
      forall s | Reachable(c, s) ensures PodSafety.Exclusive(c, s) { PodSafety.PodsAreExclusive(c, s); }
    }
  }

  /**
   * As long as every release was recorded, pods never share an address exactly when the reuse wait also
   * covers the metadata lag, or EC2 never grants what metadata shows elsewhere; and in no case if it does
   * so for new interfaces.
   */
  lemma ExclusiveUnlessSpoiledIff(c: Config)
    requires Durations(c)
    ensures ExclusiveUnlessSpoiled(c) <==>
      && c.bindDelay + c.decideDelay + SECOND - 1 <= c.reuseWait
      && (c.regrants.Never? || (c.regrants.OnRequest? && c.lag + c.listDelay + SECOND - 1 <= c.reuseWait))
  {
    ReachableClosed(c);
    if !PodSafety.AddWaits(c) {
      TwoOwnersRun(c, s => Reachable(c, s));
      TwoOwnersShare(c);
    } else if c.regrants.Never? || (c.regrants.OnRequest? && PodSafety.ListWaits(c)) {
      forall s | Reachable(c, s) && !s.spoiled ensures PodSafety.Exclusive(c, s) { PodSafety.PodsAreExclusive(c, s); }
    } else if c.regrants.Always? {
      NewInterfaceRun(c, s => Reachable(c, s));
      SharedIsShared(c, Late(c), Regranted(Lost(Late(c))));
    } else {
      LateRun(c, s => Reachable(c, s));
      var now, cloud: Cloud :| !cloud.spoiled && Reachable(c, SharedState(now, cloud));
      SharedIsShared(c, now, cloud);
    }
  }

  lemma TwoOwnersShare(c: Config)
    requires Durations(c)
    ensures !PodSafety.Exclusive(c, TwoOwnersState(c))
  {
    assert InUse(c, TwoOwnersState(c), 0) && InUse(c, TwoOwnersState(c), 1);
  }

  /** The GC spares addresses in use exactly when `free-after` covers binding and rounding. */
  lemma GcSafeIff(c: Config)
    requires Durations(c)
    ensures GcAlwaysSafe(c) <==> c.bindDelay + SECOND - 1 <= c.freeAfter
  {
    if PodSafety.GcWaits(c) {
      forall s, e | Reachable(c, s) && Enabled(c, s, GcRelease(e)) ensures Unused(c, s, s.proc.todo[0]) {
        PodSafety.GcReleasesUnused(c, s, e);
      }
    } else {
      ReachableClosed(c);
      ReleasingRun(c, s => Reachable(c, s));
      ReleasingInUse(c);
    }
  }

  lemma ReleasingInUse(c: Config)
    requires Durations(c)
    ensures Enabled(c, ReleasingState(c), GcRelease(ENI)) && !Unused(c, ReleasingState(c), ReleasingState(c).proc.todo[0])
  {
    assert Uses(c, ReleasingState(c), 0, X);
  }

  /** ADD never hands off a released address exactly when the reuse wait covers lag, ADD and rounding. */
  lemma OwnedIff(c: Config)
    requires Durations(c)
    ensures AlwaysOwned(c) <==> c.lag + c.listDelay + SECOND - 1 <= c.reuseWait
  {
    if PodSafety.ListWaits(c) {
      forall s, p, io | Reachable(c, s) && !s.spoiled && Enabled(c, s, HandOff(p, io)) ensures s.proc.ip in s.owner {
        PodSafety.HandsOffOwned(c, s, p, io);
      }
    } else {
      ReachableClosed(c);
      LostRun(c, s => Reachable(c, s));
      var s := LateReady(c, Late(c), map[], Lost(Late(c)));
      assert Enabled(c, s, HandOff(0, Committed)) && X !in s.owner;
    }
  }

  /** The same wait is needed if the GC never runs, because of the addresses that DEL gives back. */
  lemma OwnedWithoutGcIff(c: Config)
    requires Durations(c)
    ensures OwnedWithoutGc(c) <==> c.lag + c.listDelay + SECOND - 1 <= c.reuseWait
  {
    if PodSafety.ListWaits(c) {
      forall s, p, io | ReachableWithoutGc(c, s) && !s.spoiled && Enabled(c, s, HandOff(p, io))
        ensures s.proc.ip in s.owner
      {
        assert Reachable(c, s);
        PodSafety.HandsOffOwned(c, s, p, io);
      }
    } else {
      WithoutGcClosed(c);
      DelLateRun(c, s => ReachableWithoutGc(c, s));
      var s := LateReady(c, Late(c), map[0 := Ended], Deleted(Late(c)));
      assert Enabled(c, s, HandOff(1, Committed)) && X !in s.owner;
    }
  }
}
