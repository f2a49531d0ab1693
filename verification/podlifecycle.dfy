/**
 * The life of a pod address as a state machine: ADD (`plugin/ipam/main.go:79-212`), DEL
 * (`plugin/ipam/main.go:215-251`) and the registry GC
 * (`cmd/cni-ipvlan-vpc-k8s-tool/cni-ipvlan-vpc-k8s-tool.go:315-378`), interleaved with
 * everything the lockfile does not stop: the clock, pods binding and vanishing, and the EC2
 * metadata catching up.
 *
 * One action is one observable micro-step.  At most one command holds the lockfile; where it
 * stands in its code is `proc`.  Any action may be followed by `Stop`, which is both "the command
 * returned an error" and "the process died".
 */
module PodLifecycle {
  import opened Wrap
  import opened JsonTime
  import opened RegistryFile

  type PodId = nat
  type Eni = nat
  type Shown = (Eni, IP)

  /**
   * The delays that safety depends on, in nanoseconds.
   * - bindDelay: longest time from hand-off to the address being bound in the pod (D)
   * - decideDelay: longest time from ADD's snapshot of bound addresses to its decision (S)
   * - listDelay: longest time from ADD's metadata read to its decision
   * - lag: longest time metadata goes on showing an address that was taken away (L)
   * - reuseWait: `reuseIPWait` (W)
   * - freeAfter: the GC's `free-after` before jitter (F)
   *
   * `regrants` says when EC2 may grant an address that metadata still shows on another interface.
   */
  datatype Config = Config(
    bindDelay: int, decideDelay: int, listDelay: int, lag: int, reuseWait: int, freeAfter: int, regrants: Regrants)

  /** Never, to an existing interface that asks for addresses, or to new interfaces too. */
  datatype Regrants = Never | OnRequest | Always

  /** `Native` addresses are bound by the host itself; `at` is the instant of the hand-off. */
  datatype Pod =
    | Native(ip: IP)
    | Handed(ip: IP, at: Instant)
    | Bound(ip: IP, at: Instant)
    | Ended

  datatype Proc =
    | Idle
    | AddBegun
    | AddListed(metaAt: Instant, todo: seq<IP>)
    | AddScan(metaAt: Instant, snapAt: Instant, todo: seq<IP>, bound: set<IP>, free: seq<IP>)
    | AddChose(ip: IP)
    | AddAsk
    | AddAsked(eni: Eni, shown: set<IP>)
    | AddGot(eni: Eni, shown: set<IP>, todo: seq<IP>, first: Option<IP>)
    | AddCreated(eni: Eni, got: set<IP>)
    | AddReady(ip: IP)
    | DelRun(pod: PodId, todo: seq<IP>)
    | DelReleased(pod: PodId, ip: IP, gone: bool, todo: seq<IP>)
    | GcBegun
    | GcAged(todo: seq<IP>)
    | GcRun(todo: seq<IP>, bound: set<IP>)
    | GcReleased(ip: IP, gone: bool, todo: seq<IP>, bound: set<IP>)

  /**
   * `since` is the instant of the last step that read the clock on behalf of a command.
   * `owner` is the interface that EC2 has an address on; `meta` is what metadata shows.
   * `removedAt` remembers when an address was taken off an interface, `deleted` for which pods DEL
   * has begun, and `spoiled` whether a release was ever left unrecorded in the registry.
   */
  datatype State = State(
    now: Instant,
    since: Instant,
    file: File,
    pods: map<PodId, Pod>,
    owner: map<IP, Eni>,
    meta: set<Shown>,
    removedAt: map<Shown, Instant>,
    proc: Proc,
    deleted: set<PodId>,
    spoiled: bool)

  datatype Action =
    // The environment
    | Tick(d: nat)
    | Bind(p: PodId)
    | Vanish(p: PodId)
    | Show(e: Eni, x: IP)
    | Hide(e: Eni, x: IP)
    // Whichever command holds the lock
    | Seed(free: set<IP>, io: Io)
    | Stop
    // ADD
    | AddBegin
    | AddList(ips: seq<IP>)
    | AddSnapshot
    | ScanOne(readFails: bool, stamp: Instant, io: Io)
    | Reuse(x: IP, t: Instant)
    | NoReuse(readFails: bool, t: Instant)
    | Restamp(stamp: Instant, io: Io)
    | AskList(e: Eni)
    | AskGrant(grant: set<IP>)
    | AskPoll(ips: seq<IP>)
    | AskTrack(readFails: bool, stamp: Instant, io: Io)
    | AskDone
    | EniCreate(e: Eni, grant: set<IP>)
    | EniStamp(x: IP, io: Io)
    | EniUse(x: IP)
    | HandOff(p: PodId, io: Io)
    // DEL
    | DelBegin(p: PodId)
    | DelRelease(e: Eni)
    | DelKeep
    | DelTrack(stamp: Instant, io: Io)
    // GC
    | GcBegin
    | GcCollect(ips: seq<IP>, t: Instant, wait: int)
    | GcSnapshot
    | GcForgetBound(io: Io)
    | GcRelease(e: Eni)
    | GcSkip
    | GcForget(io: Io)

  // ----- Observations -----

  /** The pod owns its address: it is bound, or it may still be bound in time. */
  predicate InUse(c: Config, s: State, p: PodId) {
    p in s.pods &&
    match s.pods[p]
    case Native(_) => true
    case Handed(_, at) => s.now <= at + c.bindDelay
    case Bound(_, _) => true
    case Ended => false
  }

  ghost predicate Uses(c: Config, s: State, p: PodId, x: IP) {
    InUse(c, s, p) && s.pods[p].ip == x
  }

  ghost predicate Unused(c: Config, s: State, x: IP) {
    forall p :: !Uses(c, s, p, x)
  }

  predicate IsBound(pod: Pod) {
    pod.Native? || pod.Bound?
  }

  /** The addresses found in some namespace. */
  function BoundIps(pods: map<PodId, Pod>): (r: set<IP>)
    ensures forall p | p in pods && IsBound(pods[p]) :: pods[p].ip in r
    ensures forall x | x in r :: exists p :: p in pods && IsBound(pods[p]) && pods[p].ip == x
  {
    set p | p in pods && IsBound(pods[p]) :: pods[p].ip
  }

  function ShownOn(meta: set<Shown>, e: Eni): (r: set<IP>)
    ensures forall x :: x in r <==> (e, x) in meta
  {
    set pr | pr in meta && pr.0 == e :: pr.1
  }

  predicate OnEni(s: State, e: Eni, x: IP) {
    x in s.owner && s.owner[x] == e
  }

  /** Metadata still shows the pair although the address is no longer on that interface. */
  predicate Stale(s: State, pr: Shown) {
    pr in s.meta && !OnEni(s, pr.0, pr.1)
  }

  /** An address was just taken off its interface and the registry does not say so yet. */
  predicate Unrecorded(proc: Proc) {
    (proc.DelReleased? || proc.GcReleased?) && proc.gone
  }

  ghost predicate MidRelease(s: State, x: IP) {
    Unrecorded(s.proc) && s.proc.ip == x
  }

  // ----- Initial states -----

  /** A node on which no pod was handed an address yet; the file may be absent. */
  ghost predicate Init(c: Config, s: State) {
    && EPOCH <= s.since <= s.now
    && Whole(Decode(s.file))
    && (forall x | x in Decode(s.file) :: Decode(s.file)[x] <= s.since)
    && (forall p | p in s.pods :: s.pods[p].Native?)
    && (forall p, q | p in s.pods && q in s.pods && s.pods[p].ip == s.pods[q].ip :: p == q)
    && (forall e: Eni, x: IP :: (e, x) in s.meta <==> OnEni(s, e, x))
    && s.removedAt == map[]
    && s.proc.Idle?
    && s.deleted == {}
    && !s.spoiled
  }

  // ----- Steps -----

  /** A clock reading taken by the running command after its previous step. */
  predicate Reading(s: State, t: Instant) {
    s.since <= t <= s.now
  }

  /** What EC2 is trusted with: it grants addresses nobody uses, and if `spare`, that are shown nowhere else. */
  ghost predicate Grantable(c: Config, s: State, e: Eni, grant: set<IP>, spare: bool) {
    forall x | x in grant ::
      && x !in s.owner
      && Unused(c, s, x)
      && (spare ==> forall e' | e' != e :: (e', x) !in s.meta)
  }

  ghost predicate FreshEni(s: State, e: Eni) {
    && (forall x :: (e, x) !in s.meta && (e, x) !in s.removedAt)
    && (forall x | x in s.owner :: s.owner[x] != e)
  }

  /** Time may pass as long as metadata does not lag longer than assumed. */
  ghost predicate LagHolds(c: Config, s: State, now: Instant) {
    forall pr | Stale(s, pr) :: pr in s.removedAt && now <= s.removedAt[pr] + c.lag
  }

  ghost predicate Enabled(c: Config, s: State, a: Action) {
    match a
    case Tick(d) => LagHolds(c, s, s.now + d)
    case Bind(p) => p in s.pods && s.pods[p].Handed? && InUse(c, s, p)
    case Vanish(p) => p in s.pods
    case Show(e, x) => OnEni(s, e, x)
    case Hide(e, x) => !OnEni(s, e, x)

    case Seed(free, io) => !s.proc.Idle? && s.file.Missing?
    case Stop => !s.proc.Idle?

    case AddBegin => s.proc.Idle?
    case AddList(ips) => s.proc.AddBegun? && forall x | x in ips :: exists e :: (e, x) in s.meta
    case AddSnapshot => s.proc.AddListed?
    case ScanOne(readFails, stamp, io) => s.proc.AddScan? && s.proc.todo != [] && Reading(s, stamp)
    case Reuse(x, t) =>
      && s.proc.AddScan? && s.proc.todo == [] && Reading(s, t)
      && t <= s.proc.snapAt + c.decideDelay && t <= s.proc.metaAt + c.listDelay
      && x in s.proc.free && AgedBefore(Decode(s.file), x, t - c.reuseWait)
    case NoReuse(readFails, t) =>
      || s.proc.AddBegun?
      || s.proc.AddListed?
      || (&& s.proc.AddScan? && s.proc.todo == [] && Reading(s, t)
          && (readFails || forall x | x in s.proc.free :: !AgedBefore(Decode(s.file), x, t - c.reuseWait)))
    case Restamp(stamp, io) => s.proc.AddChose? && Reading(s, stamp)
    case AskList(e) => s.proc.AddAsk?
    case AskGrant(grant) => s.proc.AddAsked? && Grantable(c, s, s.proc.eni, grant, c.regrants.Never?)
    case AskPoll(ips) =>
      s.proc.AddAsked? && forall x | x in ips :: (s.proc.eni, x) in s.meta && x !in s.proc.shown
    case AskTrack(readFails, stamp, io) => s.proc.AddGot? && s.proc.todo != [] && Reading(s, stamp)
    case AskDone => s.proc.AddGot? && s.proc.todo == []
    case EniCreate(e, grant) =>
      (s.proc.AddAsk? || s.proc.AddAsked?) && FreshEni(s, e) && Grantable(c, s, e, grant, !c.regrants.Always?)
    case EniStamp(x, io) => s.proc.AddCreated? && x in s.proc.got
    case EniUse(x) => s.proc.AddCreated? && (s.proc.eni, x) in s.meta
    case HandOff(p, io) => s.proc.AddReady? && p !in s.pods && p !in s.deleted

    case DelBegin(p) => s.proc.Idle? && p in s.pods
    case DelRelease(e) => s.proc.DelRun? && s.proc.todo != []
    case DelKeep => s.proc.DelRun? && s.proc.todo != []
    case DelTrack(stamp, io) => s.proc.DelReleased? && Reading(s, stamp)

    case GcBegin => s.proc.Idle?
    case GcCollect(ips, t, wait) =>
      && s.proc.GcBegun? && Reading(s, t) && c.freeAfter <= wait
      && forall x | x in ips :: AgedBefore(Decode(s.file), x, t - wait)
    case GcSnapshot => s.proc.GcAged?
    case GcForgetBound(io) => s.proc.GcRun? && s.proc.todo != [] && s.proc.todo[0] in s.proc.bound
    case GcRelease(e) => s.proc.GcRun? && s.proc.todo != [] && s.proc.todo[0] !in s.proc.bound
    case GcSkip => s.proc.GcRun? && s.proc.todo != [] && s.proc.todo[0] !in s.proc.bound
    case GcForget(io) => s.proc.GcReleased?
  }

  /** What an action does to the registry file. */
  datatype Touch =
    | Leaves
    | Puts(ip: IP, stamp: Option<Instant>, io: Io)
    | Seeds(free: set<IP>, io: Io)

  function Touched(s: State, a: Action): Touch {
    match a
    case Seed(free, io) => Seeds(free, io)
    // aws/freeip.go:46-58: unknown free addresses are tracked, bound ones forgotten
    case ScanOne(readFails, stamp, io) =>
      if !(s.proc.AddScan? && s.proc.todo != []) then Leaves
      else if s.proc.todo[0] in s.proc.bound then Puts(s.proc.todo[0], None, io)
      else if readFails || s.proc.todo[0] in Decode(s.file) then Leaves
      else Puts(s.proc.todo[0], Some(stamp), io)
    case Restamp(stamp, io) => if s.proc.AddChose? then Puts(s.proc.ip, Some(stamp), io) else Leaves
    // aws/allocate.go:81-90: only addresses the registry does not know are tracked and kept
    case AskTrack(readFails, stamp, io) =>
      if !(s.proc.AddGot? && s.proc.todo != []) || readFails || s.proc.todo[0] in Decode(s.file) then Leaves
      else Puts(s.proc.todo[0], Some(stamp), io)
    case EniStamp(x, io) => Puts(x, Some(EPOCH), io)
    case HandOff(p, io) => if s.proc.AddReady? then Puts(s.proc.ip, None, io) else Leaves
    case DelTrack(stamp, io) => if s.proc.DelReleased? then Puts(s.proc.ip, Some(stamp), io) else Leaves
    case GcForgetBound(io) => if s.proc.GcRun? && s.proc.todo != [] then Puts(s.proc.todo[0], None, io) else Leaves
    case GcForget(io) => if s.proc.GcReleased? then Puts(s.proc.ip, None, io) else Leaves
    case _ => Leaves
  }

  function FileAfter(f: File, touch: Touch): File {
    match touch
    case Leaves => f
    case Puts(ip, stamp, io) => Write(f, ip, stamp, io)
    case Seeds(free, Skipped) => f
    case Seeds(free, Torn) => Garbled
    case Seeds(free, Committed) => Saved(Epochs(free))
  }

  function Grant(owner: map<IP, Eni>, e: Eni, grant: set<IP>): (r: map<IP, Eni>)
    ensures forall x :: x in r <==> x in owner || x in grant
    ensures forall x | x in r :: r[x] == if x in grant then e else owner[x]
  {
    map x | x in owner.Keys + grant :: if x in grant then e else owner[x]
  }

  /** A scan whose registry write fails ends early with what it listed so far (`aws/freeip.go:49-57`). */
  function ScanProc(s: State, a: Action): Proc
    requires s.proc.AddScan? && s.proc.todo != [] && a.ScanOne?
  {
    var AddScan(metaAt, snapAt, todo, bound, free) := s.proc;
    var rest := if Touched(s, a).Leaves? || a.io.Committed? then todo[1..] else [];
    AddScan(metaAt, snapAt, rest, bound, if todo[0] in bound then free else free + [todo[0]])
  }

  /** A failed write ends the allocation, but with the address already kept (`aws/allocate.go:82-93`). */
  function GotProc(s: State, a: Action): Proc
    requires s.proc.AddGot? && s.proc.todo != [] && a.AskTrack?
  {
    var AddGot(eni, shown, todo, first) := s.proc;
    if Touched(s, a).Leaves? then AddGot(eni, shown, todo[1..], first)
    else AddGot(eni, shown, if a.io.Committed? then todo[1..] else [], if first.None? then Some(todo[0]) else first)
  }

  // The successor state, one component at a time: each says which actions change it.

  ghost function ProcAfter(c: Config, s: State, a: Action): Proc
    requires Enabled(c, s, a)
  {
    match a
    case Stop => Idle

    case AddBegin => AddBegun
    case AddList(ips) => AddListed(s.now, ips)
    case AddSnapshot => AddScan(s.proc.metaAt, s.now, s.proc.todo, BoundIps(s.pods), [])
    case ScanOne(_, _, _) => ScanProc(s, a)
    case Reuse(x, _) => AddChose(x)
    case NoReuse(_, _) => AddAsk
    case Restamp(_, io) => if io.Committed? then AddReady(s.proc.ip) else Idle
    case AskList(e) => AddAsked(e, ShownOn(s.meta, e))
    case AskPoll(ips) => AddGot(s.proc.eni, s.proc.shown, ips, None)
    case AskTrack(_, _, _) => GotProc(s, a)
    case AskDone =>
      if s.proc.first.Some? then AddReady(s.proc.first.value) else AddAsked(s.proc.eni, s.proc.shown)
    case EniCreate(e, grant) => AddCreated(e, grant)
    case EniUse(x) => AddReady(x)
    case HandOff(_, _) => Idle

    case DelBegin(p) => DelRun(p, if s.pods[p].Bound? then [s.pods[p].ip] else [])
    case DelRelease(e) =>
      DelReleased(s.proc.pod, s.proc.todo[0], OnEni(s, e, s.proc.todo[0]), s.proc.todo[1..])
    case DelKeep => DelReleased(s.proc.pod, s.proc.todo[0], false, s.proc.todo[1..])
    case DelTrack(_, io) => if io.Committed? then DelRun(s.proc.pod, s.proc.todo) else Idle

    case GcBegin => GcBegun
    case GcCollect(ips, _, _) => GcAged(ips)
    case GcSnapshot => GcRun(s.proc.todo, BoundIps(s.pods))
    case GcForgetBound(_) => GcRun(s.proc.todo[1..], s.proc.bound)
    case GcRelease(e) =>
      GcReleased(s.proc.todo[0], OnEni(s, e, s.proc.todo[0]), s.proc.todo[1..], s.proc.bound)
    case GcSkip => GcRun(s.proc.todo[1..], s.proc.bound)
    case GcForget(_) => GcRun(s.proc.todo, s.proc.bound)

    case _ => s.proc
  }

  /** The environment's steps, and the two that any command may take at any time. */
  predicate Background(a: Action) {
    a.Tick? || a.Bind? || a.Vanish? || a.Show? || a.Hide? || a.Seed? || a.Stop?
  }

  function NowAfter(s: State, a: Action): Instant {
    if a.Tick? then s.now + a.d else s.now
  }

  function SinceAfter(s: State, a: Action): Instant {
    if Background(a) then s.since else s.now
  }

  ghost function PodsAfter(c: Config, s: State, a: Action): map<PodId, Pod>
    requires Enabled(c, s, a)
  {
    match a
    case Bind(p) => s.pods[p := Bound(s.pods[p].ip, s.pods[p].at)]
    case Vanish(p) => s.pods[p := Ended]
    // plugin/ipam/main.go:205-211: forgotten by the registry just before it is handed off
    case HandOff(p, Committed) => s.pods[p := Handed(s.proc.ip, s.now)]
    case _ => s.pods
  }

  /** EC2 takes an address off the interface that has it, and off no other. */
  ghost function OwnerAfter(c: Config, s: State, a: Action): map<IP, Eni>
    requires Enabled(c, s, a)
  {
    match a
    case AskGrant(grant) => Grant(s.owner, s.proc.eni, grant)
    case EniCreate(e, grant) => Grant(s.owner, e, grant)
    case DelRelease(e) => if OnEni(s, e, s.proc.todo[0]) then s.owner - {s.proc.todo[0]} else s.owner
    case GcRelease(e) => if OnEni(s, e, s.proc.todo[0]) then s.owner - {s.proc.todo[0]} else s.owner
    case _ => s.owner
  }

  ghost function RemovedAfter(c: Config, s: State, a: Action): map<Shown, Instant>
    requires Enabled(c, s, a)
  {
    if (a.DelRelease? || a.GcRelease?) && OnEni(s, a.e, s.proc.todo[0])
    then s.removedAt[(a.e, s.proc.todo[0]) := s.now]
    else s.removedAt
  }

  function MetaAfter(s: State, a: Action): set<Shown> {
    match a
    case Show(e, x) => s.meta + {(e, x)}
    case Hide(e, x) => s.meta - {(e, x)}
    case _ => s.meta
  }

  predicate SpoiledAfter(s: State, a: Action) {
    || s.spoiled
    || (Unrecorded(s.proc) && (a.Stop? || ((a.DelTrack? || a.GcForget?) && !a.io.Committed?)))
  }

  ghost function Step(c: Config, s: State, a: Action): State
    requires Enabled(c, s, a)
  {
    State(
      NowAfter(s, a),
      SinceAfter(s, a),
      FileAfter(s.file, Touched(s, a)),
      PodsAfter(c, s, a),
      OwnerAfter(c, s, a),
      MetaAfter(s, a),
      RemovedAfter(c, s, a),
      ProcAfter(c, s, a),
      if a.DelBegin? then s.deleted + {a.p} else s.deleted,
      SpoiledAfter(s, a))
  }

  /** `acts` can be performed one after the other from `s`, and end in `s'`. */
  ghost predicate Runs(c: Config, s: State, acts: seq<Action>, s': State)
    decreases |acts|
  {
    if acts == [] then s' == s
    else Enabled(c, s, acts[0]) && Runs(c, Step(c, s, acts[0]), acts[1..], s')
  }

  ghost predicate Reachable(c: Config, s: State) {
    exists s0, acts :: Init(c, s0) && Runs(c, s0, acts, s)
  }
}
