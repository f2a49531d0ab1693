/**
 * The state machine and the code agree.  Whatever the environment does meanwhile, and as long as
 * registry calls succeed, the scan, the poll for new addresses, the stamps of a new interface, the DEL
 * command and the GC of `PodLifecycle` have the effect that the contracts of
 * `AwsRegistry.FindFreeIPsAtIndex`, `AwsAllocate.CollectNew`, `AwsInterface.StampAtEpoch`,
 * `Ipam.CmdDel` and `RegistryGc.Collect` state.
 */
module PodAgreement {
  import opened Wrap
  import opened JsonTime
  import opened RegistryFile
  import opened Environment
  import opened PodLifecycle
  import opened AwsRegistry
  import opened AwsAllocate
  import Ipam
  import PodSafety
  import RegistryGc

  function Addresses(pairs: seq<AllocationResult>): (r: seq<IP>)
    ensures |r| == |pairs| && forall i | 0 <= i < |r| :: r[i] == pairs[i].ip
  {
    seq(|pairs|, i requires 0 <= i < |pairs| => pairs[i].ip)
  }

  predicate Environmental(a: Action) {
    a.Tick? || a.Bind? || a.Vanish? || a.Show? || a.Hide?
  }

  /** The environment leaves the running command and the registry alone. */
  lemma EnvironmentStep(c: Config, s: State, a: Action)
    requires Enabled(c, s, a) && Environmental(a)
    ensures
      var s' := Step(c, s, a);
      s'.proc == s.proc && s'.file == s.file && s'.since == s.since && s.now <= s'.now && s'.owner == s.owner
  {
  }

  // ----- The scan -----

  /** The scan goes on: a registry call that succeeds, or a step of the environment. */
  predicate Undisturbed(a: Action) {
    Environmental(a) || (a.ScanOne? && !a.readFails && a.io.Committed?)
  }

  /** A scan of `pairs` that began at `begin` with the entries `m`, after its first `k` addresses. */
  ghost predicate ScanAt(
    s: State, pairs: seq<AllocationResult>, bound: seq<IP>, k: nat, m: Entries, begin: Instant)
  {
    && k <= |pairs|
    && s.proc.AddScan?
    && s.proc.todo == Addresses(pairs)[k..]
    && s.proc.free == Addresses(Unbound(pairs[..k], bound))
    && (forall x :: x in s.proc.bound <==> x in bound)
    && begin <= s.since <= s.now
    && s.file != Missing && Whole(Decode(s.file))
    && Reconciled(m, Decode(s.file), pairs[..k], bound, begin, s.now)
  }

  lemma EnvironmentKeepsScan(
    c: Config, s: State, a: Action, pairs: seq<AllocationResult>, bound: seq<IP>, k: nat, m: Entries, begin: Instant)
    requires ScanAt(s, pairs, bound, k, m, begin) && Enabled(c, s, a) && Undisturbed(a) && !a.ScanOne?
    ensures ScanAt(Step(c, s, a), pairs, bound, k, m, begin)
  {
    var s' := Step(c, s, a);
    EnvironmentStep(c, s, a);
    forall x: IP ensures
      if Lists(pairs[..k], x) then Settled(m, Decode(s'.file), x, x in bound, begin, s'.now)
      else Untouched(m, Decode(s'.file), x)
    {
      assert if Lists(pairs[..k], x) then Settled(m, Decode(s.file), x, x in bound, begin, s.now)
             else Untouched(m, Decode(s.file), x);
    }
  }

  /** What one scanning step does to the registry is what `ScanAddress` promises. */
  lemma ScannedByStep(s: State, a: Action, bound: seq<IP>)
    requires a.ScanOne? && Undisturbed(a) && s.proc.AddScan? && s.proc.todo != [] && Reading(s, a.stamp)
    requires s.file != Missing && Whole(Decode(s.file))
    requires forall x :: x in s.proc.bound <==> x in bound
    ensures
      var f, ip := FileAfter(s.file, Touched(s, a)), s.proc.todo[0];
      && f != Missing && Whole(Decode(f))
      && Scanned(Decode(s.file), Decode(f), ip, ip in bound, s.since, s.now)
  {
    var ip := s.proc.todo[0];
    if ip in s.proc.bound {
      WriteEffect(s.file, ip, None, a.io);
    } else if ip !in Decode(s.file) {
      WriteEffect(s.file, ip, Some(a.stamp), a.io);
    }
  }

  lemma UnboundNext(pairs: seq<AllocationResult>, k: nat, bound: seq<IP>)
    requires k < |pairs|
    ensures
      Addresses(Unbound(pairs[..k + 1], bound)) ==
      Addresses(Unbound(pairs[..k], bound)) + if pairs[k].ip in bound then [] else [pairs[k].ip]
  {
    assert pairs[..k + 1][..k] == pairs[..k];
  }

  lemma ScanStep(
    c: Config, s: State, a: Action, pairs: seq<AllocationResult>, bound: seq<IP>, k: nat, m: Entries, begin: Instant)
    requires ScanAt(s, pairs, bound, k, m, begin) && Enabled(c, s, a) && Undisturbed(a) && a.ScanOne?
    ensures k < |pairs| && ScanAt(Step(c, s, a), pairs, bound, k + 1, m, begin)
  {
    var next := pairs[k];
    assert s.proc.todo[0] == next.ip && s.proc.todo[1..] == Addresses(pairs)[k + 1..];
    ScannedByStep(s, a, bound);
    UnboundNext(pairs, k, bound);
    assert pairs[..k + 1] == pairs[..k] + [next];
    ReconciledNext(m, Decode(s.file), Decode(Step(c, s, a).file), pairs[..k], next, bound, begin, s.now, s.now);
  }

  lemma {:induction false} ScanAlong(
    c: Config, s: State, acts: seq<Action>, s': State,
    pairs: seq<AllocationResult>, bound: seq<IP>, k: nat, m: Entries, begin: Instant)
    returns (k': nat)
    requires ScanAt(s, pairs, bound, k, m, begin) && Runs(c, s, acts, s')
    requires forall a | a in acts :: Undisturbed(a)
    ensures ScanAt(s', pairs, bound, k', m, begin)
    decreases |acts|
  {
    if acts == [] { return k; }
    assert acts[0] in acts;
    if acts[0].ScanOne? {
      ScanStep(c, s, acts[0], pairs, bound, k, m, begin);
      k' := ScanAlong(c, Step(c, s, acts[0]), acts[1..], s', pairs, bound, k + 1, m, begin);
    } else {
      EnvironmentKeepsScan(c, s, acts[0], pairs, bound, k, m, begin);
      k' := ScanAlong(c, Step(c, s, acts[0]), acts[1..], s', pairs, bound, k, m, begin);
    }
  }

  /**
   * A scan of the addresses that metadata lists at or above an index, from right after the snapshot
   * to its end: the free list and the registry are those of the code.
   */
  lemma ScanAgrees(
    c: Config, s: State, acts: seq<Action>, s': State, intfs: seq<Interface>, index: int, bound: seq<IP>)
    requires s.proc.AddScan? && s.proc.todo == Addresses(Listed(intfs, index)) && s.proc.free == []
    requires forall x :: x in s.proc.bound <==> x in bound
    requires s.since <= s.now && s.file != Missing && Whole(Decode(s.file))
    requires Runs(c, s, acts, s') && forall a | a in acts :: Undisturbed(a)
    requires s'.proc.AddScan? && s'.proc.todo == []
    ensures s'.proc.free == Addresses(FreeOf(intfs, bound, index))
    ensures Reconciled(Decode(s.file), Decode(s'.file), Listed(intfs, index), bound, s.since, s'.now)
  {
    var pairs, m := Listed(intfs, index), Decode(s.file);
    forall x: IP ensures !Lists(pairs[..0], x) {}
    assert ScanAt(s, pairs, bound, 0, m, s.since);
    var k := ScanAlong(c, s, acts, s', pairs, bound, 0, m, s.since);
    assert k == |pairs| && pairs[..k] == pairs;
  }

  // ----- The decision about reuse -----

  /** The machine may reuse or not exactly what the code finds reusable in what it was told. */
  lemma DecisionAgrees(c: Config, s: State, snapshot: Ipam.Snapshot, t: Instant)
    requires s.proc.AddScan? && s.proc.todo == [] && Reading(s, t)
    requires s.proc.free == Addresses(snapshot.free) && snapshot.entries == Decode(s.file)
    requires snapshot.threshold == t - c.reuseWait
    ensures forall x ::
      Enabled(c, s, Reuse(x, t)) <==>
        && t <= s.proc.snapAt + c.decideDelay && t <= s.proc.metaAt + c.listDelay
        && exists a: AllocationResult :: a.ip == x && Ipam.Reusable(snapshot, a)
    ensures Enabled(c, s, NoReuse(false, t)) <==> forall a :: !Ipam.Reusable(snapshot, a)
  {
    forall x ensures x in s.proc.free <==> exists a: AllocationResult :: a.ip == x && a in snapshot.free {
      if x in s.proc.free {
        var i :| 0 <= i < |s.proc.free| && s.proc.free[i] == x;
        assert snapshot.free[i].ip == x && snapshot.free[i] in snapshot.free;
      }
      if a: AllocationResult :| a.ip == x && a in snapshot.free {
        var i :| 0 <= i < |snapshot.free| && snapshot.free[i] == a;
        assert s.proc.free[i] == x;
      }
    }
    forall a | Ipam.Reusable(snapshot, a)
      ensures a.ip in s.proc.free && AgedBefore(Decode(s.file), a.ip, t - c.reuseWait)
    {
      var i :| 0 <= i < |snapshot.free| && snapshot.free[i] == a;
      assert s.proc.free[i] == a.ip;
    }
    forall x | x in s.proc.free && AgedBefore(Decode(s.file), x, t - c.reuseWait)
      ensures exists a: AllocationResult :: a.ip == x && Ipam.Reusable(snapshot, a)
    {
      var a: AllocationResult :| a.ip == x && a in snapshot.free;
      assert Ipam.Reusable(snapshot, a);
    }
  }

  // ----- Asking EC2 -----

  /** The poll goes on: a registry call that succeeds, or a step of the environment. */
  predicate Polled(a: Action) {
    Environmental(a) || (a.AskTrack? && !a.readFails && a.io.Committed?)
  }

  /** The addresses that are new to an interface, in their order. */
  function NewIps(before: Interface, ips: seq<IP>): (r: seq<IP>)
    ensures forall x :: x in r <==> x in ips && x !in before.ipv4s
    decreases |ips|
  {
    if ips == [] then []
    else
      var front, last := ips[..|ips| - 1], ips[|ips| - 1];
      assert ips == front + [last];
      NewIps(before, front) + if last in before.ipv4s then [] else [last]
  }

  lemma {:induction false} NewInOrder(r: seq<AllocationResult>, before: Interface, ips: seq<IP>)
    requires InOrder(r, NewIps(before, ips))
    ensures InOrder(r, ips)
    decreases |ips|
  {
    if ips != [] && r != [] {
      var front, last := ips[..|ips| - 1], ips[|ips| - 1];
      if last in before.ipv4s {
        assert NewIps(before, ips) == NewIps(before, front);
        NewInOrder(r, before, front);
      } else {
        InOrderLast(r, NewIps(before, front), last);
        if InOrder(r, NewIps(before, front)) {
          NewInOrder(r, before, front);
        } else {
          NewInOrder(r[..|r| - 1], before, front);
        }
      }
    }
  }

  lemma InOrderLast(r: seq<AllocationResult>, front: seq<IP>, last: IP)
    requires r != [] && InOrder(r, front + [last])
    ensures InOrder(r, front) || (r[|r| - 1].ip == last && InOrder(r[..|r| - 1], front))
  {
    assert (front + [last])[..|front|] == front;
  }

  function FirstIp(r: seq<AllocationResult>): Option<IP> {
    if r == [] then None else Some(r[0].ip)
  }

  /** The results of a poll so far, after these addresses, and what it did to the registry. */
  ghost predicate PolledInto(
    r: seq<AllocationResult>, before: Interface, shown: Interface, ips: seq<IP>,
    m: Entries, m1: Entries, begin: Instant, now: Instant)
  {
    && NewOn(r, before, shown) && InOrder(r, ips) && AllStamped(r, m1, begin, now)
    && Gathered(r, before, ips, true, m, m1)
  }

  /** A poll that began at `begin` with the entries `m`, after the first `k` new addresses of the view. */
  ghost predicate PollAt(
    s: State, before: Interface, shown: Interface, r: seq<AllocationResult>, k: nat, m: Entries, begin: Instant)
  {
    var newIps := NewIps(before, shown.ipv4s);
    && k <= |newIps| && begin <= s.since <= s.now && s.file != Missing
    && s.proc.AddGot? && s.proc.todo == newIps[k..] && s.proc.first == FirstIp(r)
    && PolledInto(r, before, shown, newIps[..k], m, Decode(s.file), begin, s.now)
  }

  /** The results after one more address: it is one of them unless the registry knows it. */
  function MoreResults(r: seq<AllocationResult>, known: Entries, ip: IP, shown: Interface): seq<AllocationResult> {
    if ip in known then r else r + [AllocationResult(ip, shown)]
  }

  lemma KnownIsNoResult(r: seq<AllocationResult>, before: Interface, ips: seq<IP>, k: nat, m: Entries, m1: Entries)
    requires k < |ips| && Gathered(r, before, ips[..k], true, m, m1) && ips[k] in m1
    ensures Gathered(r, before, ips[..k + 1], true, m, m1)
  {
    NotListedIsUntouched(r, m, m1, ips[k]);
    MissNext(r, r, before, ips, k, m);
  }

  lemma NotListedIsUntouched(r: seq<AllocationResult>, m: Entries, m1: Entries, x: IP)
    requires OnlyAdded(r, m, m1)
    ensures if Lists(r, x) then x in m1 else Untouched(m, m1, x)
  {
    assert if Lists(r, x) then x !in m && x in m1 else Untouched(m, m1, x);
  }

  lemma NewIsResult(
    r: seq<AllocationResult>, before: Interface, shown: Interface, ips: seq<IP>, k: nat,
    m: Entries, m1: Entries, stamp: Instant)
    requires k < |ips| && Gathered(r, before, ips[..k], true, m, m1) && ips[k] !in m1
    ensures !Lists(r, ips[k])
    ensures
      Gathered(r + [AllocationResult(ips[k], shown)], before, ips[..k + 1], true, m,
               Decode(Saved(Updated(m1, ips[k], Some(stamp)))))
  {
    var result := AllocationResult(ips[k], shown);
    NotListedIsUntouched(r, m, m1, ips[k]);
    AddNext(r, m, m1, result, stamp);
    ListsNext(r, result, ips[k]);
    MissNext(r, r + [result], before, ips, k, m);
  }

  lemma PolledOne(
    r: seq<AllocationResult>, before: Interface, shown: Interface, ips: seq<IP>, k: nat,
    m: Entries, m1: Entries, begin: Instant, stamp: Instant, now: Instant)
    requires k < |ips| && PolledInto(r, before, shown, ips[..k], m, m1, begin, now) && begin <= stamp <= now
    requires ips[k] in shown.ipv4s && ips[k] !in before.ipv4s
    ensures
      var m2 := if ips[k] in m1 then m1 else Decode(Saved(Updated(m1, ips[k], Some(stamp))));
      PolledInto(MoreResults(r, m1, ips[k], shown), before, shown, ips[..k + 1], m, m2, begin, now)
  {
    assert ips[..k + 1] == ips[..k] + [ips[k]];
    InOrderNext(r, ips[..k], AllocationResult(ips[k], shown));
    if ips[k] in m1 {
      KnownIsNoResult(r, before, ips, k, m, m1);
    } else {
      var result := AllocationResult(ips[k], shown);
      NewIsResult(r, before, shown, ips, k, m, m1, stamp);
      NewNext(r, before, shown, ips[k]);
      LaterStamp(r, m1, begin, result, stamp, now);
    }
  }

  lemma LaterStamp(r: seq<AllocationResult>, m: Entries, begin: Instant, a: AllocationResult, stamp: Instant, now: Instant)
    requires AllStamped(r, m, begin, now) && begin <= stamp <= now
    ensures AllStamped(r + [a], Decode(Saved(Updated(m, a.ip, Some(stamp)))), begin, now)
  {
    StoredOnce(stamp);
    var m2 := Decode(Saved(Updated(m, a.ip, Some(stamp))));
    forall b | b in r + [a] ensures StampedSince(m2, b.ip, begin, now) {
      if b.ip != a.ip {
        assert b in r && StampedSince(m, b.ip, begin, now);
        StoredOnce(m[b.ip]);
      }
    }
  }

  lemma PollStep(
    c: Config, s: State, a: Action,
    before: Interface, shown: Interface, r: seq<AllocationResult>, k: nat, m: Entries, begin: Instant)
    requires PollAt(s, before, shown, r, k, m, begin) && Enabled(c, s, a) && Polled(a) && a.AskTrack?
    ensures
      && k < |NewIps(before, shown.ipv4s)|
      && PollAt(Step(c, s, a), before, shown,
                MoreResults(r, Decode(s.file), s.proc.todo[0], shown), k + 1, m, begin)
  {
    var newIps, ip := NewIps(before, shown.ipv4s), s.proc.todo[0];
    assert ip == newIps[k] && ip in newIps && s.proc.todo[1..] == newIps[k + 1..];
    PolledOne(r, before, shown, newIps, k, m, Decode(s.file), begin, a.stamp, s.now);
    assert Step(c, s, a).proc == GotProc(s, a);
  }

  lemma EnvironmentKeepsPoll(
    c: Config, s: State, a: Action,
    before: Interface, shown: Interface, r: seq<AllocationResult>, k: nat, m: Entries, begin: Instant)
    requires PollAt(s, before, shown, r, k, m, begin) && Enabled(c, s, a) && Polled(a) && !a.AskTrack?
    ensures PollAt(Step(c, s, a), before, shown, r, k, m, begin)
  {
    EnvironmentStep(c, s, a);
  }

  lemma {:induction false} PollAlong(
    c: Config, s: State, acts: seq<Action>, s': State,
    before: Interface, shown: Interface, r: seq<AllocationResult>, k: nat, m: Entries, begin: Instant)
    returns (r': seq<AllocationResult>, k': nat)
    requires PollAt(s, before, shown, r, k, m, begin) && Runs(c, s, acts, s')
    requires forall a | a in acts :: Polled(a)
    ensures PollAt(s', before, shown, r', k', m, begin)
    decreases |acts|
  {
    if acts == [] { return r, k; }
    assert acts[0] in acts;
    if acts[0].AskTrack? {
      PollStep(c, s, acts[0], before, shown, r, k, m, begin);
      var more := MoreResults(r, Decode(s.file), s.proc.todo[0], shown);
      r', k' := PollAlong(c, Step(c, s, acts[0]), acts[1..], s', before, shown, more, k + 1, m, begin);
    } else {
      EnvironmentKeepsPoll(c, s, acts[0], before, shown, r, k, m, begin);
      r', k' := PollAlong(c, Step(c, s, acts[0]), acts[1..], s', before, shown, r, k, m, begin);
    }
  }

  /**
   * A poll that found new addresses, from right after the view to its end: the address that the
   * machine goes on with is the first of the results of the code, and the registry is that of the code.
   */
  lemma PollAgrees(c: Config, s: State, acts: seq<Action>, s': State, before: Interface, shown: Interface)
    returns (r: seq<AllocationResult>)
    requires s.proc.AddGot? && s.proc.todo == NewIps(before, shown.ipv4s) && s.proc.first.None?
    requires s.since <= s.now && s.file != Missing && Whole(Decode(s.file))
    requires Runs(c, s, acts, s') && forall a | a in acts :: Polled(a)
    requires s'.proc.AddGot? && s'.proc.todo == []
    ensures s'.proc.first == if r == [] then None else Some(r[0].ip)
    ensures NewOn(r, before, shown) && InOrder(r, shown.ipv4s)
    ensures AllStamped(r, Decode(s'.file), s.since, s'.now)
    ensures Gathered(r, before, shown.ipv4s, true, Decode(s.file), Decode(s'.file))
  {
    var newIps := NewIps(before, shown.ipv4s);
    NothingPolled(before, shown, newIps, Decode(s.file), s.since, s.now);
    var k;
    r, k := PollAlong(c, s, acts, s', before, shown, [], 0, Decode(s.file), s.since);
    assert k == |newIps| && newIps[..k] == newIps;
    NewInOrder(r, before, shown.ipv4s);
  }

  lemma NothingPolled(before: Interface, shown: Interface, ips: seq<IP>, m: Entries, begin: Instant, now: Instant)
    requires Whole(m)
    ensures PolledInto([], before, shown, ips[..0], m, m, begin, now)
  {
    forall x: IP ensures !Lists([], x) {}
  }

  /** A new interface's addresses are stamped one after the other. */
  predicate Stamps(a: Action) {
    Environmental(a) || (a.EniStamp? && a.io.Committed?)
  }

  /** The addresses that were stamped, in their order. */
  function StampedBy(acts: seq<Action>): seq<IP> {
    if acts == [] then []
    else (if acts[0].EniStamp? then [acts[0].x] else []) + StampedBy(acts[1..])
  }

  /** These addresses are at the epoch, and everything else is as it was. */
  ghost predicate AtEpoch(m: Entries, m': Entries, ips: seq<IP>) {
    Whole(m') && forall x: IP :: if x in ips then x in m' && m'[x] == EPOCH else Untouched(m, m', x)
  }

  lemma StampStep(c: Config, s: State, a: Action, ips: seq<IP>, m: Entries)
    requires AtEpoch(m, Decode(s.file), ips) && Enabled(c, s, a) && Stamps(a)
    ensures AtEpoch(m, Decode(Step(c, s, a).file), ips + StampedBy([a]))
  {
    if a.EniStamp? {
      SaveEffect(s.file, a.x, Some(EPOCH));
      assert StampedBy([a]) == [a.x];
    } else {
      EnvironmentStep(c, s, a);
      assert StampedBy([a]) == [] && ips + [] == ips;
    }
  }

  /** However the stamps of a new interface are interleaved, the registry is that of `StampAtEpoch`. */
  lemma {:induction false} EpochAgrees(c: Config, s: State, acts: seq<Action>, s': State, ips: seq<IP>, m: Entries)
    requires AtEpoch(m, Decode(s.file), ips) && Runs(c, s, acts, s')
    requires forall a | a in acts :: Stamps(a)
    ensures AtEpoch(m, Decode(s'.file), ips + StampedBy(acts))
    decreases |acts|
  {
    if acts == [] {
      assert ips + StampedBy(acts) == ips;
    } else {
      assert acts[0] in acts;
      StampStep(c, s, acts[0], ips, m);
      EpochAgrees(c, Step(c, s, acts[0]), acts[1..], s', ips + StampedBy([acts[0]]), m);
      assert ips + StampedBy(acts) == ips + StampedBy([acts[0]]) + StampedBy(acts[1..]);
    }
  }

  // ----- DEL -----

  /** DEL goes on: every address is given back or kept, and then recorded. */
  predicate Deletes(a: Action) {
    Environmental(a) || a.DelRelease? || a.DelKeep? || (a.DelTrack? && a.io.Committed?)
  }

  /** A DEL of `addrs` that began at `begin` with the entries `m`, after its first `k` addresses. */
  ghost predicate DelAt(s: State, addrs: seq<IP>, k: nat, m: Entries, begin: Instant) {
    && k <= |addrs| && begin <= s.since <= s.now && IsWholeFile(s.file)
    && Ipam.Returned(m, Decode(s.file), addrs[..k], begin, s.now)
    && match s.proc
       case DelRun(_, todo) => todo == addrs[k..]
       case DelReleased(_, ip, _, todo) => k < |addrs| && ip == addrs[k] && todo == addrs[k + 1..]
       case _ => false
  }

  ghost predicate IsWholeFile(f: File) {
    Whole(Decode(f))
  }

  lemma DelStep(c: Config, s: State, a: Action, addrs: seq<IP>, k: nat, m: Entries, begin: Instant) returns (k': nat)
    requires DelAt(s, addrs, k, m, begin) && Enabled(c, s, a) && Deletes(a)
    ensures DelAt(Step(c, s, a), addrs, k', m, begin)
  {
    k' := k;
    if a.DelTrack? {
      k' := k + 1;
      assert addrs[..k + 1] == addrs[..k] + [addrs[k]];
      Ipam.ReturnedNext(m, Decode(s.file), addrs[..k], addrs[k], begin, s.now, a.stamp, s.now);
    } else {
      if Environmental(a) { EnvironmentStep(c, s, a); }
      Ipam.ReturnedLater(m, Decode(s.file), addrs[..k], begin, s.now, Step(c, s, a).now);
    }
  }

  /** A DEL that gets to its end has given back and recorded its addresses as `Ipam.CmdDel` says. */
  lemma {:induction false} DelAgrees(
    c: Config, s: State, acts: seq<Action>, s': State, addrs: seq<IP>, k: nat, m: Entries, begin: Instant)
    requires DelAt(s, addrs, k, m, begin) && Runs(c, s, acts, s')
    requires forall a | a in acts :: Deletes(a)
    requires s'.proc.DelRun? && s'.proc.todo == []
    ensures Ipam.Returned(m, Decode(s'.file), addrs, begin, s'.now)
    decreases |acts|
  {
    if acts == [] {
      assert addrs[..k] == addrs;
    } else {
      assert acts[0] in acts;
      var k' := DelStep(c, s, acts[0], addrs, k, m, begin);
      DelAgrees(c, Step(c, s, acts[0]), acts[1..], s', addrs, k', m, begin);
    }
  }

  lemma {:induction false} NothingToDelete(c: Config, s: State, acts: seq<Action>, s': State)
    requires Runs(c, s, acts, s') && forall a | a in acts :: Deletes(a)
    requires (s.proc.DelRun? || s.proc.DelReleased?) && s.proc.todo == []
    ensures s'.owner == s.owner && forall a | a in acts :: !a.DelRelease?
    ensures s.proc.DelRun? ==> s'.file == s.file
    decreases |acts|
  {
    if acts != [] {
      assert acts[0] in acts;
      if Environmental(acts[0]) { EnvironmentStep(c, s, acts[0]); }
      NothingToDelete(c, Step(c, s, acts[0]), acts[1..], s');
      assert acts == [acts[0]] + acts[1..];
    }
  }

  /**
   * From its beginning on: a DEL that gets to its end has recorded the address of its pod, if that is
   * bound, and done nothing to the registry or to EC2 otherwise.
   */
  lemma DelFromBegin(c: Config, s: State, p: PodId, acts: seq<Action>, s': State)
    requires Reachable(c, s) && Enabled(c, s, DelBegin(p))
    requires Runs(c, Step(c, s, DelBegin(p)), acts, s') && forall a | a in acts :: Deletes(a)
    requires s'.proc.DelRun? && s'.proc.todo == []
    ensures s.pods[p].Bound? ==> Ipam.Returned(Decode(s.file), Decode(s'.file), [s.pods[p].ip], s.since, s'.now)
    ensures !s.pods[p].Bound? ==> s'.file == s.file && s'.owner == s.owner
  {
    PodSafety.ReachableSafe(c, s);
    var s1 := Step(c, s, DelBegin(p));
    if s.pods[p].Bound? {
      var addrs := [s.pods[p].ip];
      assert addrs[0..] == addrs;
      DelAgrees(c, s1, acts, s', addrs, 0, Decode(s.file), s.since);
    } else {
      NothingToDelete(c, s1, acts, s');
    }
  }

  lemma {:induction false} ReleasedAlong(c: Config, s: State, acts: seq<Action>, s': State, x: IP, e: Eni)
    requires Runs(c, s, acts, s') && forall a | a in acts :: Deletes(a)
    requires s.proc.DelRun? && s.proc.todo == [x] && DelRelease(e) in acts && OnEni(s, e, x)
    ensures s'.owner == s.owner - {x}
    decreases |acts|
  {
    var a, s1 := acts[0], Step(c, s, acts[0]);
    assert a in acts && acts == [a] + acts[1..];
    if Environmental(a) {
      EnvironmentStep(c, s, a);
      ReleasedAlong(c, s1, acts[1..], s', x, e);
    } else {
      NothingToDelete(c, s1, acts[1..], s');
      assert a == DelRelease(e);
    }
  }

  /** A DEL that asks the interface that has its pod's address takes it off, and nothing else. */
  lemma DelTakes(c: Config, s: State, p: PodId, acts: seq<Action>, s': State, e: Eni)
    requires Enabled(c, s, DelBegin(p)) && Runs(c, Step(c, s, DelBegin(p)), acts, s')
    requires (forall a | a in acts :: Deletes(a)) && DelRelease(e) in acts
    requires s.pods[p].Bound? && OnEni(s, e, s.pods[p].ip)
    ensures s'.owner == s.owner - {s.pods[p].ip}
  {
    ReleasedAlong(c, Step(c, s, DelBegin(p)), acts, s', s.pods[p].ip, e);
  }

  // ----- The GC -----

  /** The GC goes on: addresses in use are forgotten, others given back and forgotten, or left. */
  predicate Collects(a: Action) {
    || Environmental(a) || a.GcRelease? || a.GcSkip?
    || (a.GcForgetBound? && a.io.Committed?) || (a.GcForget? && a.io.Committed?)
  }

  /** The fates are told apart by what the snapshot shows as bound. */
  ghost predicate FatesFit(ips: seq<IP>, bound: set<IP>, fates: seq<RegistryGc.Fate>) {
    |fates| <= |ips| && forall i | 0 <= i < |fates| :: fates[i].InUse? <==> ips[i] in bound
  }

  /** A GC over `ips` that began with the entries `m`, after the addresses with these fates. */
  ghost predicate GcAt(s: State, ips: seq<IP>, bound: set<IP>, fates: seq<RegistryGc.Fate>, m: Entries) {
    && FatesFit(ips, bound, fates) && IsWholeFile(s.file)
    && RegistryGc.Pruned(m, Decode(s.file), ips, fates)
    && match s.proc
       case GcRun(todo, b) => todo == ips[|fates|..] && b == bound
       case GcReleased(ip, _, todo, b) =>
         |fates| < |ips| && ip == ips[|fates|] && ip !in bound && todo == ips[|fates| + 1..] && b == bound
       case _ => false
  }

  /** The fate that an action decides, if it decides one. */
  function Decided(a: Action): Option<RegistryGc.Fate> {
    if a.GcForgetBound? then Some(RegistryGc.InUse)
    else if a.GcForget? then Some(RegistryGc.Released)
    else if a.GcSkip? then Some(RegistryGc.ReleaseFailed)
    else None
  }

  function With(fates: seq<RegistryGc.Fate>, fate: Option<RegistryGc.Fate>): seq<RegistryGc.Fate> {
    if fate.Some? then fates + [fate.value] else fates
  }

  lemma ForgottenFile(f: File, ip: IP)
    requires IsWholeFile(f)
    ensures
      var f' := Write(f, ip, None, Committed);
      IsWholeFile(f') && Decode(f') == Decode(f) - {ip}
  {
    FlooredWhole(Decode(f) - {ip});
  }

  /** An address in use or given back is forgotten. */
  lemma ForgottenPrunes(f: File, ips: seq<IP>, fates: seq<RegistryGc.Fate>, fate: RegistryGc.Fate, m: Entries)
    requires IsWholeFile(f) && |fates| < |ips| && RegistryGc.Pruned(m, Decode(f), ips, fates) && !fate.ReleaseFailed?
    ensures
      var f' := Write(f, ips[|fates|], None, Committed);
      IsWholeFile(f') && RegistryGc.Pruned(m, Decode(f'), ips, fates + [fate])
  {
    ForgottenFile(f, ips[|fates|]);
    RegistryGc.PrunedNext(m, Decode(f), Decode(Write(f, ips[|fates|], None, Committed)), ips, fates, fate);
  }

  lemma GcForgetBoundAgrees(c: Config, s: State, a: Action, ips: seq<IP>, bound: set<IP>, fates: seq<RegistryGc.Fate>, m: Entries)
    requires GcAt(s, ips, bound, fates, m) && Enabled(c, s, a) && a.GcForgetBound? && a.io.Committed?
    ensures GcAt(Step(c, s, a), ips, bound, fates + [RegistryGc.InUse], m)
  {
    ForgottenPrunes(s.file, ips, fates, RegistryGc.InUse, m);
  }

  lemma GcForgetAgrees(c: Config, s: State, a: Action, ips: seq<IP>, bound: set<IP>, fates: seq<RegistryGc.Fate>, m: Entries)
    requires GcAt(s, ips, bound, fates, m) && Enabled(c, s, a) && a.GcForget? && a.io.Committed?
    ensures GcAt(Step(c, s, a), ips, bound, fates + [RegistryGc.Released], m)
  {
    ForgottenPrunes(s.file, ips, fates, RegistryGc.Released, m);
  }

  lemma GcSkipAgrees(c: Config, s: State, a: Action, ips: seq<IP>, bound: set<IP>, fates: seq<RegistryGc.Fate>, m: Entries)
    requires GcAt(s, ips, bound, fates, m) && Enabled(c, s, a) && a.GcSkip?
    ensures GcAt(Step(c, s, a), ips, bound, fates + [RegistryGc.ReleaseFailed], m)
  {
    RegistryGc.PrunedNext(m, Decode(s.file), Decode(s.file), ips, fates, RegistryGc.ReleaseFailed);
  }

  lemma GcReleaseAgrees(c: Config, s: State, a: Action, ips: seq<IP>, bound: set<IP>, fates: seq<RegistryGc.Fate>, m: Entries)
    requires GcAt(s, ips, bound, fates, m) && Enabled(c, s, a) && (a.GcRelease? || Environmental(a))
    ensures GcAt(Step(c, s, a), ips, bound, fates, m)
  {
    if Environmental(a) { EnvironmentStep(c, s, a); }
  }

  lemma GcStepAgrees(c: Config, s: State, a: Action, ips: seq<IP>, bound: set<IP>, fates: seq<RegistryGc.Fate>, m: Entries)
    requires GcAt(s, ips, bound, fates, m) && Enabled(c, s, a) && Collects(a)
    ensures GcAt(Step(c, s, a), ips, bound, With(fates, Decided(a)), m)
  {
    if a.GcForgetBound? {
      GcForgetBoundAgrees(c, s, a, ips, bound, fates, m);
    } else if a.GcForget? {
      GcForgetAgrees(c, s, a, ips, bound, fates, m);
    } else if a.GcSkip? {
      GcSkipAgrees(c, s, a, ips, bound, fates, m);
    } else {
      GcReleaseAgrees(c, s, a, ips, bound, fates, m);
    }
  }

  /**
   * Wherever a GC stops, its registry is pruned by the fates so far as `RegistryGc.Collect` says, and
   * these are the fates of the first addresses, one for each.
   */
  lemma {:induction false} GcAgrees(
    c: Config, s: State, acts: seq<Action>, s': State,
    ips: seq<IP>, bound: set<IP>, fates: seq<RegistryGc.Fate>, m: Entries)
    returns (fates': seq<RegistryGc.Fate>)
    requires GcAt(s, ips, bound, fates, m) && Runs(c, s, acts, s')
    requires forall a | a in acts :: Collects(a)
    ensures GcAt(s', ips, bound, fates', m) && fates <= fates'
    decreases |acts|
  {
    if acts == [] { return fates; }
    assert acts[0] in acts;
    GcStepAgrees(c, s, acts[0], ips, bound, fates, m);
    fates' := GcAgrees(c, Step(c, s, acts[0]), acts[1..], s', ips, bound, With(fates, Decided(acts[0])), m);
  }

  // ----- Registry writes that fail -----

  /**
   * A registry write that fails ends an ADD before anything is handed off, and a DEL; a scan and a poll
   * stop with what they found so far, and only the GC goes on as if nothing had happened.
   */
  lemma FailingWriteEnds(c: Config, s: State, a: Action)
    requires Enabled(c, s, a) && Touched(s, a).Puts? && !Touched(s, a).io.Committed?
    ensures a.Restamp? || a.HandOff? || a.DelTrack? ==> Step(c, s, a).proc.Idle? && Step(c, s, a).pods == s.pods
    ensures a.ScanOne? ==>
      var x, proc := s.proc.todo[0], Step(c, s, a).proc;
      proc.AddScan? && proc.todo == [] && proc.free == s.proc.free + if x in s.proc.bound then [] else [x]
    ensures a.AskTrack? ==>
      var x, proc := s.proc.todo[0], Step(c, s, a).proc;
      proc.AddGot? && proc.todo == [] && proc.first == Some(if s.proc.first.Some? then s.proc.first.value else x)
    ensures a.GcForgetBound? ==> Step(c, s, a).proc == GcRun(s.proc.todo[1..], s.proc.bound)
    ensures a.GcForget? ==> Step(c, s, a).proc == GcRun(s.proc.todo, s.proc.bound)
  {
  }

  /** A poll that brought nothing new may be followed by another one. */
  lemma PollMayBeRepeated(c: Config, s: State, ips: seq<IP>)
    requires s.proc.AddGot? && s.proc.todo == [] && s.proc.first.None?
    ensures Enabled(c, Step(c, s, AskDone), AskPoll(ips)) <==>
      forall x | x in ips :: (s.proc.eni, x) in s.meta && x !in s.proc.shown
  {
    assert Step(c, s, AskDone).proc == AddAsked(s.proc.eni, s.proc.shown);
  }
}
