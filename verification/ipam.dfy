/** `plugin/ipam/main.go`: the ADD and DEL commands. */
module Ipam {
  import opened Wrap
  import opened JsonTime
  import opened RegistryFile
  import opened Environment
  import opened AwsRegistry
  import opened AwsSubnets
  import opened AwsAllocate
  import opened AwsInterface
  import opened Ec2Api

  /** The part of `PluginConf` that decides about addresses; `reuseWait` is in seconds. */
  datatype Conf = Conf(ifaceIndex: int, reuseWait: int, batchSize: int, subnetTags: map<string, string>, skipDeallocation: bool)

  // ----- Reusing an address -----

  /** The first free address that is also in the aged list. */
  method FirstAged(free: seq<AllocationResult>, aged: seq<IP>) returns (k: nat)
    ensures k <= |free|
    ensures k < |free| ==> free[k].ip in aged
    ensures forall i | 0 <= i < k :: free[i].ip !in aged
  {
    k := 0;
    while k < |free|
      invariant k <= |free|
      invariant forall i | 0 <= i < k :: free[i].ip !in aged
    {
      for j := 0 to |aged|
        invariant free[k].ip !in aged[..j]
      {
        if free[k].ip == aged[j] { return; }
      }
      assert aged[..|aged|] == aged;
      k := k + 1;
    }
  }

  /**
   * What ADD was told before it decided about reuse.  `scanned` is the log after the scan, `head` the
   * log before the registry told which addresses are `aged`, as of the time `at`; without any free
   * address after a scan that failed, it is not `consulted`.
   */
  datatype Snapshot = Snapshot(
    listed: bool, seen: seq<Interface>, bound: seq<IP>, free: seq<AllocationResult>, scanned: seq<Answer>,
    consulted: bool, head: seq<Answer>, aged: Result<seq<IP>>, entries: Entries, at: Instant, threshold: Instant)

  /** The registry was consulted and could be read. */
  predicate Asked(s: Snapshot) {
    s.consulted && s.aged.Ok?
  }

  /** The snapshot is what the log says, from where the ADD began. */
  ghost predicate Told(s: Snapshot, index: int, log: seq<Answer>, log': seq<Answer>) {
    && Listings(log, s.scanned, s.listed, s.seen, s.bound) && Traffic(log, s.scanned)
    && s.scanned <= log'
    && (forall a | a in s.free :: a in FreeOf(s.seen, s.bound, index))
    && (Smooth(log, s.scanned) && s.listed ==> s.free == FreeOf(s.seen, s.bound, index))
    && (!s.consulted ==> s.free == [] && (!s.listed || !Smooth(log, s.scanned)))
    && (s.consulted ==> Traffic(s.scanned, s.head) && s.head + [Aged(s.threshold, s.aged)] <= log')
    && (Asked(s) ==> forall x :: x in s.aged.value <==> AgedBefore(s.entries, x, s.threshold))
  }

  /** An address that may be reused: reported free and recorded before the threshold. */
  ghost predicate Reusable(s: Snapshot, a: AllocationResult) {
    a in s.free && AgedBefore(s.entries, a.ip, s.threshold)
  }

  /** The first of the free addresses that may be reused. */
  ghost predicate Picks(s: Snapshot, a: AllocationResult) {
    && Reusable(s, a)
    && exists k :: 0 <= k < |s.free| && s.free[k] == a && forall i | 0 <= i < k :: !Reusable(s, s.free[i])
  }

  /** Still registered, unless a torn write took every entry along. */
  ghost predicate Recoverable(f: File, ip: IP) {
    ip in Decode(f) || f == Garbled
  }

  /** What ADD knows of the registry: the scan left it in step, if nothing failed. */
  ghost predicate KeptInStep(s: Snapshot, index: int, log: seq<Answer>, file: File, begin: Instant) {
    file != Missing && Whole(Decode(file)) && s.listed && Smooth(log, s.scanned) && Asked(s) ==>
      Reconciled(Decode(file), s.entries, Listed(s.seen, index), s.bound, begin, s.at)
  }

  /** The scan and the aged addresses (`:92-95`). */
  method Look(registry: Registry, conf: Conf) returns (free: seq<AllocationResult>, aged: seq<IP>, ghost s: Snapshot)
    modifies registry, registry.env`log
    ensures old(registry.clock) <= s.at <= registry.clock && s.threshold == s.at - conf.reuseWait * SECOND
    ensures Told(s, conf.ifaceIndex, old(registry.env.log), registry.env.log) && s.free == free
    ensures KeptInStep(s, conf.ifaceIndex, old(registry.env.log), old(registry.file), old(registry.clock))
    ensures s.entries == Decode(registry.file)
    ensures if Asked(s) then s.aged == Ok(aged) else aged == []
    ensures old(registry.file) != Missing ==> registry.file != Missing
  {
    var err;
    ghost var listed, seen, bound;
    free, err, listed, seen, bound := FindFreeIPsAtIndex(registry, conf.ifaceIndex, true);
    aged := [];
    s := Snapshot(listed, seen, bound, free, registry.env.log, false, registry.env.log, Err,
                  Decode(registry.file), registry.clock, registry.clock - conf.reuseWait * SECOND);
    if err && |free| == 0 { return; }
    var now := registry.Now();
    var answer := registry.TrackedBefore(now - conf.reuseWait * SECOND);
    s := s.(consulted := true, head := registry.env.log[..|registry.env.log| - 1], aged := answer,
            entries := Decode(registry.file), at := now, threshold := now - conf.reuseWait * SECOND);
    if answer.Ok? { aged := answer.value; }
  }

  /**
   * Looks for a free address to reuse (`:92-111`) and stamps the one it finds.  A scan that failed
   * part-way still counts with what it found.
   */
  method Reuse(registry: Registry, conf: Conf) returns (alloc: Option<AllocationResult>, tracked: bool, ghost s: Snapshot)
    modifies registry, registry.env`log
    ensures old(registry.clock) <= s.at <= registry.clock && s.threshold == s.at - conf.reuseWait * SECOND
    ensures Told(s, conf.ifaceIndex, old(registry.env.log), registry.env.log)
    ensures KeptInStep(s, conf.ifaceIndex, old(registry.env.log), old(registry.file), old(registry.clock))
    ensures alloc.Some? ==> Asked(s) && Picks(s, alloc.value)
    ensures alloc.None? ==> tracked && (Asked(s) ==> forall a :: !Reusable(s, a))
    ensures alloc.Some? && tracked ==>
      registry.file != Missing && StampedSince(Decode(registry.file), alloc.value.ip, old(registry.clock), registry.clock)
    ensures alloc.Some? && !tracked ==>
      Recoverable(registry.file, alloc.value.ip) && !Smooth(old(registry.env.log), registry.env.log)
    ensures old(registry.file) != Missing ==> registry.file != Missing
  {
    var free, aged;
    free, aged, s := Look(registry, conf);
    ghost var now, log := registry.clock, registry.env.log;
    alloc, tracked := None, true;
    var k := FirstAged(free, aged);
    if k < |free| {
      alloc := Some(free[k]);
      assert Picks(s, free[k]);
      var ok, stamp, io, base := registry.TrackIP(free[k].ip);
      if ok { StampNext([], base, old(registry.clock), now, free[k], stamp, registry.clock); }
      tracked := ok;
      Later(old(registry.env.log), log, registry.env.log, Aged(s.threshold, s.aged));
    }
  }

  /**
   * If the scan to decision of an ADD takes at most the reuse wait less a second, it only reuses
   * addresses that were registered before it began, with the time they had then.
   */
  lemma ReusesOnlyOldEntries(
    m: Entries, s: Snapshot, a: AllocationResult, index: int, reuseWait: int, begin: Instant)
    requires Reconciled(m, s.entries, Listed(s.seen, index), s.bound, begin, s.at)
    requires a in FreeOf(s.seen, s.bound, index) && Reusable(s, a)
    requires s.threshold == s.at - reuseWait * SECOND && s.at - begin <= reuseWait * SECOND - SECOND
    ensures AgedBefore(m, a.ip, s.threshold) && m[a.ip] == s.entries[a.ip] && a.ip !in s.bound
  {
    UnboundExactly(Listed(s.seen, index), s.bound, a);
    var pairs := Listed(s.seen, index);
    var i :| 0 <= i < |pairs| && pairs[i] == a;
    assert Lists(pairs, a.ip);
    assert Settled(m, s.entries, a.ip, false, begin, s.at);
  }

  /**
   * Whatever happened before, an address that metadata lists and nobody has bound is registered after
   * the next scan without failures: an ADD that failed strands nothing.
   */
  lemma NextScanRegisters(
    m: Entries, m': Entries, seen: seq<Interface>, bound: seq<IP>, index: int, a: AllocationResult, begin: Instant, now: Instant)
    requires Reconciled(m, m', Listed(seen, index), bound, begin, now)
    requires a.intf in seen && index <= a.intf.number && a.ip in a.intf.ipv4s && a.ip !in bound
    ensures a.ip in m' && (a.ip in m ==> m'[a.ip] == m[a.ip])
  {
    ListedExactly(seen, index, a);
    var pairs := Listed(seen, index);
    var i :| 0 <= i < |pairs| && pairs[i] == a;
    assert Lists(pairs, a.ip);
    assert Settled(m, m', a.ip, false, begin, now);
  }

  /**
   * What the next scan without failures does about every other address: one that is listed and bound
   * is forgotten, and one that no managed interface lists is left alone.
   */
  lemma NextScanForgets(
    m: Entries, m': Entries, seen: seq<Interface>, bound: seq<IP>, index: int, x: IP, begin: Instant, now: Instant)
    requires Reconciled(m, m', Listed(seen, index), bound, begin, now)
    ensures x in bound && (exists intf :: intf in seen && index <= intf.number && x in intf.ipv4s) ==> x !in m'
    ensures (forall intf | intf in seen && index <= intf.number :: x !in intf.ipv4s) ==>
      (x in m' <==> x in m) && (x in m ==> m'[x] == m[x])
  {
    var pairs := Listed(seen, index);
    if intf :| intf in seen && index <= intf.number && x in intf.ipv4s {
      ListedExactly(seen, index, AllocationResult(x, intf));
      var i :| 0 <= i < |pairs| && pairs[i] == AllocationResult(x, intf);
      assert Lists(pairs, x);
    } else if Lists(pairs, x) {
      var i :| 0 <= i < |pairs| && pairs[i].ip == x;
      ListedExactly(seen, index, pairs[i]);
      assert false;
    }
    assert if Lists(pairs, x) then Settled(m, m', x, x in bound, begin, now) else Untouched(m, m', x);
  }

  // ----- Taking a new address -----

  /**
   * How `Obtain` went: the allocation on an existing interface, the new interface if one was tried,
   * and what was requested for the one and the other.  `shown` is the view of the interface in which
   * the new addresses `results` were found, and `middle` the log between the two.
   */
  datatype Obtaining = Obtaining(
    placed: Placement, q: Asking, shown: Interface, results: seq<AllocationResult>, allocationFailed: bool, middle: seq<Answer>,
    created: Option<Creation>, made: Result<Interface>, allocations: seq<Call>, requested: seq<Call>)

  /** The allocation that was tried first, by the answers it got, and why it failed if it did. */
  ghost predicate Allocates(how: Obtaining, conf: Conf, log: seq<Answer>) {
    match how.placed
    case Unanswered =>
      && how.allocations == [] && how.allocationFailed && how.created.Some?
      && (|| how.middle == log + [Interfaces(Err)]
          || (exists intfs, name, limits ::
                how.middle == log + [Interfaces(Ok(intfs)), InstanceType(name), LimitsAre(limits), Subnets(Err)]))
    case NoneOffers(intfs, _, limits, subnets) =>
      && how.allocations == [] && how.allocationFailed && how.created.Some?
      && how.middle == log + Consulted(how.placed)
      && !exists x, s :: x in intfs && s in subnets && Offers(x, s, conf.ifaceIndex, limits.ipv4)
    case Placed(intfs, _, limits, subnets, on, home) =>
      && on in intfs && home in subnets && Offers(on, home, conf.ifaceIndex, limits.ipv4)
      && (forall x, s | x in intfs && s in subnets && Offers(x, s, conf.ifaceIndex, limits.ipv4) ::
            s.available <= home.available)
      && Asks(how.q, log + Consulted(how.placed), how.middle, [], how.allocations, on, conf.batchSize)
      && (how.created.Some? ==> how.allocationFailed && CameToNothing(how.q, log, how.middle))
      && (how.created.None? && how.allocationFailed ==> !Smooth(log, how.middle))
  }

  /** The interface that was created if the allocation brought nothing, by the answers for it. */
  ghost predicate Creates(
    why: Creation, made: Result<Interface>, required: map<string, string>, log: seq<Answer>, log': seq<Answer>)
  {
    && Justified(why, required)
    && match why
       case Unanswered =>
         && made.Err?
         && (log' == log + [Subnets(Err)] || exists subnets :: log' == log + [Subnets(Ok(subnets)), Interfaces(Err)])
       case NoRoom(_, _, _, _) => made.Err? && log' == log + ChosenFrom(why)
       case NoSubnet(_, _, _, _) => made.Err? && log' == log + ChosenFrom(why)
       case Chosen(_, _, _, _, _, t) =>
         Traffic(log + ChosenFrom(why) + Preliminaries(t), log') && Outcome(t, made)
  }

  /** The address that was obtained, by the answers that showed it, or none. */
  ghost predicate Obtained(
    how: Obtaining, conf: Conf, alloc: Option<AllocationResult>, log: seq<Answer>, log': seq<Answer>)
  {
    && log <= how.middle <= log'
    && Allocates(how, conf, log)
    && match how.created
       case None =>
         && how.middle == log' && how.requested == []
         && how.placed.Placed? && how.results != [] && alloc == Some(how.results[0])
         && NewOn(how.results, how.placed.on, how.shown) && InOrder(how.results, how.shown.ipv4s)
         && Answered(log, how.middle, OneInterface(how.placed.on.mac, Ok(how.shown)))
       case Some(why) =>
         && how.requested == CreationRequests(why, conf.batchSize)
         && Creates(why, how.made, conf.subnetTags, how.middle, log')
         && (alloc.Some? <==> how.made.Ok? && how.made.value.ipv4s != [])
         && (alloc.Some? ==> alloc.value.intf == how.made.value && alloc.value.ip == how.made.value.ipv4s[0])
  }

  /**
   * No address could be reused (`:113-133`): allocates one on an existing interface or, if that
   * brought none at all, creates an interface and takes its first address.
   */
  method Obtain(registry: Registry, ec2: Ec2, conf: Conf) returns (alloc: Option<AllocationResult>, ghost how: Obtaining)
    requires registry.env.Valid()
    modifies registry, registry.env`log, registry.env`identity, registry.env.limitsCache, registry.env.subnetsCache, ec2
    ensures registry.env.Valid() && old(registry.clock) <= registry.clock
    ensures old(registry.file) != Missing ==> registry.file != Missing
    ensures ec2.calls == old(ec2.calls) + how.allocations + how.requested
    ensures Obtained(how, conf, alloc, old(registry.env.log), registry.env.log)
    ensures alloc.Some? && !how.allocationFailed ==>
      StampedSince(Decode(registry.file), alloc.value.ip, old(registry.clock), registry.clock)
  {
    alloc := None;
    var allocs, err;
    ghost var placed, q, shown;
    allocs, err, placed, q, shown := AllocateIPsFirstAvailableAtIndex(registry, ec2, conf.ifaceIndex, conf.batchSize);
    ghost var allocations := ec2.calls[|old(ec2.calls)|..];
    ghost var middle := registry.env.log;
    assert ec2.calls == old(ec2.calls) + allocations;
    if !err || |allocs| > 0 {
      how := Obtaining(placed, q, shown, allocs, err, middle, None, Err, allocations, []);
      assert Allocates(how, conf, old(registry.env.log));
      alloc := Some(allocs[0]);
      return;
    }
    ghost var why, made;
    alloc, why, made := Create(registry, ec2, conf);
    how := Obtaining(placed, q, shown, [], err, middle, Some(why), made, allocations, CreationRequests(why, conf.batchSize));
    assert Allocates(how, conf, old(registry.env.log));
  }

  /** The first address of a new interface (`:121-131`). */
  method Create(registry: Registry, ec2: Ec2, conf: Conf)
    returns (alloc: Option<AllocationResult>, ghost why: Creation, ghost made: Result<Interface>)
    requires registry.env.Valid()
    modifies registry, registry.env`log, registry.env`identity, registry.env.limitsCache, registry.env.subnetsCache, ec2
    ensures registry.env.Valid() && old(registry.clock) <= registry.clock
    ensures old(registry.file) != Missing ==> registry.file != Missing
    ensures old(registry.env.log) <= registry.env.log
    ensures Creates(why, made, conf.subnetTags, old(registry.env.log), registry.env.log)
    ensures ec2.calls == old(ec2.calls) + CreationRequests(why, conf.batchSize)
    ensures alloc.Some? <==> made.Ok? && made.value.ipv4s != []
    ensures alloc.Some? ==> alloc.value.intf == made.value && alloc.value.ip == made.value.ipv4s[0]
  {
    alloc := None;
    var newIf;
    newIf, why := NewInterface(registry, ec2, conf.subnetTags, conf.batchSize);
    made := newIf;
    if newIf.Err? || |newIf.value.ipv4s| < 1 { return; }
    alloc := Some(AllocationResult(newIf.value.ipv4s[0], newIf.value));
  }

  /** What a created interface provides: an address of an attached ENI that a listing shows by its MAC. */
  lemma CreatedIsAnswered(
    why: Creation, made: Result<Interface>, required: map<string, string>, log: seq<Answer>, log': seq<Answer>)
    requires Creates(why, made, required, log, log') && made.Ok?
    ensures why.Chosen? && why.t.Tried? && why.t.attachment.Attached?
    ensures made.value.mac == why.t.attachment.eni.mac
    ensures exists intfs :: made.value in intfs && Answered(log, log', Interfaces(Ok(intfs)))
  {
    var looks := why.t.looks;
    var last := looks[|looks| - 1];
    var begun := log + ChosenFrom(why) + Preliminaries(why.t);
    assert begun[|begun| - 1] == last && log'[|begun| - 1] == last;
    assert log <= begun <= log';
    assert Answered(log, log', Interfaces(Ok(last.intfs.value)));
  }

  // ----- ADD -----

  /** `PrintFailed` is an ADD that gave up after it had forgotten the address. */
  datatype Added =
    | HandedOff(alloc: AllocationResult)
    | PrintFailed(alloc: AllocationResult)
    | Failed(chosen: Option<AllocationResult>)

  /** The address of an ADD: one to be reused or, if it had to ask EC2, the one that it obtained, if any. */
  ghost predicate Chose(
    alloc: Option<AllocationResult>, s: Snapshot, how: Option<Obtaining>, conf: Conf,
    looked: seq<Answer>, obtained: seq<Answer>)
  {
    match how
    case None => alloc.Some? && Asked(s) && Picks(s, alloc.value) && obtained == looked
    case Some(h) => (Asked(s) ==> forall a :: !Reusable(s, a)) && Obtained(h, conf, alloc, looked, obtained)
  }

  function ChosenBy(r: Added): Option<AllocationResult> {
    if r.Failed? then r.chosen else Some(r.alloc)
  }

  /** What an ADD requested: nothing if it could reuse an address. */
  function AddRequests(how: Option<Obtaining>): seq<Call> {
    if how.None? then [] else how.value.allocations + how.value.requested
  }

  /** Wherever an address comes from, its interface lists it: a scanned one, one with new addresses, or a created one. */
  lemma ChosenIsListed(
    alloc: Option<AllocationResult>, s: Snapshot, how: Option<Obtaining>, conf: Conf,
    log: seq<Answer>, looked: seq<Answer>, obtained: seq<Answer>)
    requires Told(s, conf.ifaceIndex, log, looked) && Chose(alloc, s, how, conf, looked, obtained) && alloc.Some?
    ensures alloc.value.ip in alloc.value.intf.ipv4s
  {
    if how.None? { FreeExactly(s.seen, s.bound, conf.ifaceIndex, alloc.value); }
  }

  /** The first half of ADD, up to an address (`:85-133`). */
  method ChooseAddress(registry: Registry, ec2: Ec2, conf: Conf)
    returns (alloc: Option<AllocationResult>, tracked: bool, ghost s: Snapshot, ghost how: Option<Obtaining>, ghost looked: seq<Answer>)
    requires registry.env.Valid()
    modifies registry, registry.env`log, registry.env`identity, registry.env.limitsCache, registry.env.subnetsCache, ec2
    ensures registry.env.Valid()
    ensures old(registry.clock) <= s.at <= registry.clock && s.threshold == s.at - conf.reuseWait * SECOND
    ensures old(registry.env.log) <= looked <= registry.env.log
    ensures Told(s, conf.ifaceIndex, old(registry.env.log), looked)
    ensures KeptInStep(s, conf.ifaceIndex, old(registry.env.log), old(registry.file), old(registry.clock))
    ensures Chose(alloc, s, how, conf, looked, registry.env.log)
    ensures ec2.calls == old(ec2.calls) + AddRequests(how)
    ensures !tracked ==>
      && alloc.Some? && how.None?
      && !Smooth(old(registry.env.log), registry.env.log) && Recoverable(registry.file, alloc.value.ip)
    ensures tracked && alloc.Some? && (how.None? || !how.value.allocationFailed) ==>
      alloc.value.ip in Decode(registry.file)
  {
    how := None;
    alloc, tracked, s := Reuse(registry, conf);
    looked := registry.env.log;
    if alloc.None? {
      ghost var h;
      alloc, h := Obtain(registry, ec2, conf);
      how := Some(h);
    }
  }

  /**
   * `cmdAdd` (`:79-212`).  An address is handed off only once it has left the registry.  EC2 is asked
   * if and only if the scan and the registry showed nothing to reuse.  A failing ADD leaves the
   * address that it reused, or allocated without an error, in the registry.  `looked` and `obtained`
   * are the log when the decision about reuse and the choice of an address had been made.
   */
  method CmdAdd(registry: Registry, ec2: Ec2, conf: Conf)
    returns (r: Added, ghost s: Snapshot, ghost how: Option<Obtaining>, ghost looked: seq<Answer>, ghost obtained: seq<Answer>)
    requires registry.env.Valid()
    modifies registry, registry.env`log, registry.env`identity, registry.env.limitsCache, registry.env.subnetsCache, ec2
    ensures registry.env.Valid()
    ensures old(registry.clock) <= s.at <= registry.clock && s.threshold == s.at - conf.reuseWait * SECOND
    ensures old(registry.env.log) <= looked <= obtained <= registry.env.log
    ensures Told(s, conf.ifaceIndex, old(registry.env.log), looked)
    ensures KeptInStep(s, conf.ifaceIndex, old(registry.env.log), old(registry.file), old(registry.clock))
    ensures Chose(ChosenBy(r), s, how, conf, looked, obtained)
    ensures ec2.calls == old(ec2.calls) + AddRequests(how)
    ensures !r.Failed? ==> r.alloc.ip in r.alloc.intf.ipv4s
    ensures !r.Failed? ==>
      && registry.file != Missing && r.alloc.ip !in Decode(registry.file)
      && Answered(obtained, registry.env.log, Did(PrepareHandOff, true))
      && PrintedLast(obtained, registry.env.log, r.HandedOff?)
    ensures r.Failed? ==> Unprinted(obtained, registry.env.log)
    ensures r.Failed? && r.chosen.None? ==> registry.env.log == obtained
    ensures r.Failed? && r.chosen.Some? ==>
      && (Answered(obtained, registry.env.log, Did(PrepareHandOff, false))
          || !Smooth(old(registry.env.log), registry.env.log))
      && (how.None? || !how.value.allocationFailed ==> Recoverable(registry.file, r.chosen.value.ip))
  {
    var alloc, tracked;
    alloc, tracked, s, how, looked := ChooseAddress(registry, ec2, conf);
    obtained := registry.env.log;
    if !tracked || alloc.None? { return Failed(alloc), s, how, looked, obtained; }
    ChosenIsListed(alloc, s, how, conf, old(registry.env.log), looked, obtained);
    r := HandOver(registry, alloc.value, old(registry.env.log), obtained);
  }

  /** Nothing was handed to the caller between the two logs. */
  ghost predicate Unprinted(log: seq<Answer>, log': seq<Answer>) {
    log <= log' && forall i | |log| <= i < |log'| :: !(log'[i].Did? && log'[i].chore == PrintResult)
  }

  /** The last thing of all was to hand the result to the caller. */
  ghost predicate PrintedLast(log: seq<Answer>, log': seq<Answer>, ok: bool) {
    |log| < |log'| && Unprinted(log, log'[..|log'| - 1]) && log'[|log'| - 1] == Did(PrintResult, ok)
  }

  /** The rest of ADD once it has an address (`:135-211`). */
  method HandOver(registry: Registry, alloc: AllocationResult, ghost begin: seq<Answer>, ghost log: seq<Answer>) returns (r: Added)
    requires registry.env.log == log && begin <= log
    modifies registry, registry.env`log
    ensures registry.clock == old(registry.clock) && log <= registry.env.log
    ensures if r.Failed? then r.chosen == Some(alloc) else r.alloc == alloc
    ensures !r.Failed? ==>
      && registry.file != Missing && alloc.ip !in Decode(registry.file)
      && Answered(log, registry.env.log, Did(PrepareHandOff, true))
      && PrintedLast(log, registry.env.log, r.HandedOff?)
    ensures r.Failed? ==> Unprinted(log, registry.env.log)
    ensures r.Failed? ==>
      && (Answered(log, registry.env.log, Did(PrepareHandOff, false)) || !Smooth(begin, registry.env.log))
      && (alloc.ip in Decode(old(registry.file)) ==> Recoverable(registry.file, alloc.ip))
  {
    var prepared := registry.env.Do(PrepareHandOff);
    assert registry.env.log[|log|] == Did(PrepareHandOff, prepared);
    if !prepared { return Failed(Some(alloc)); }
    ghost var ready := registry.env.log;
    var ok, io, base := registry.ForgetIP(alloc.ip);
    Later(begin, ready, registry.env.log, Did(PrepareHandOff, prepared));
    if !ok { return Failed(Some(alloc)); }
    ghost var forgotten := registry.env.log;
    var printed := registry.env.Do(PrintResult);
    assert registry.env.log[|forgotten|] == Did(PrintResult, printed);
    assert registry.env.log[|log|] == Did(PrepareHandOff, true);
    return if printed then HandedOff(alloc) else PrintFailed(alloc);
  }

  // ----- DEL -----

  datatype Deleted = Complete | NotReleased | NotTracked

  /** Every listed address carries a time since `begin`, and everything else is as it was. */
  ghost predicate Returned(m: Entries, m': Entries, ips: seq<IP>, begin: Instant, now: Instant) {
    forall x: IP :: if x in ips then StampedSince(m', x, begin, now) else Untouched(m, m', x)
  }

  lemma ReturnedNext(
    m: Entries, m1: Entries, ips: seq<IP>, ip: IP, begin: Instant, now: Instant, stamp: Instant, later: Instant)
    requires Whole(m1) && Returned(m, m1, ips, begin, now) && begin <= stamp <= later && now <= later
    ensures
      var m2 := Decode(Saved(Updated(m1, ip, Some(stamp))));
      Whole(m2) && Returned(m, m2, ips + [ip], begin, later)
  {
    var f := Document(SCHEMA_VERSION, Some(m1));
    SaveEffect(f, ip, Some(stamp));
    StoredOnce(stamp);
    var m2 := Decode(Saved(Updated(m1, ip, Some(stamp))));
    forall x: IP ensures if x in ips + [ip] then StampedSince(m2, x, begin, later) else Untouched(m, m2, x) {
      assert if x in ips then StampedSince(m1, x, begin, now) else Untouched(m, m1, x);
    }
  }

  /** A DEL that began with the file `start` has returned these addresses, if this program wrote the file. */
  ghost predicate ReturnedSoFar(start: File, file: File, ips: seq<IP>, begin: Instant, now: Instant) {
    begin <= now &&
    (start != Missing && Whole(Decode(start)) ==>
       file != Missing && Whole(Decode(file)) && Returned(Decode(start), Decode(file), ips, begin, now))
  }

  lemma TrackedReturns(
    start: File, file: File, ips: seq<IP>, ip: IP, begin: Instant, now: Instant, stamp: Instant, later: Instant)
    requires ReturnedSoFar(start, file, ips, begin, now) && now <= stamp <= later
    ensures ReturnedSoFar(start, Saved(Updated(Decode(file), ip, Some(stamp))), ips + [ip], begin, later)
  {
    if start != Missing && Whole(Decode(start)) {
      ReturnedNext(Decode(start), Decode(file), ips, ip, begin, now, stamp, later);
    }
  }

  /** One address takes one attempt to give it back, unless that is switched off. */
  ghost predicate OneTry(
    skip: bool, tries: seq<Try>, ip: IP, r: Deleted,
    log: seq<Answer>, log': seq<Answer>, calls: seq<Call>, calls': seq<Call>)
  {
    log <= log' &&
    if skip then tries == [] && !r.NotReleased? && calls' == calls
    else
      && |tries| == 1 && tries[0].ip == ip && (tries[0].ok <==> !r.NotReleased?)
      && Possible(tries[0]) && tries[0].at == log && After(tries[0]) <= log'
      && calls' == calls + TryRequests(tries[0])
  }

  /** One address (`:236-247`): given back, unless that is switched off, and then recorded. */
  method DeleteOne(
    registry: Registry, ec2: Ec2, conf: Conf, ip: IP, ghost start: File, ghost begin: Instant, ghost ips: seq<IP>)
    returns (r: Deleted, ghost tries: seq<Try>)
    requires ReturnedSoFar(start, registry.file, ips, begin, registry.clock)
    requires start != Missing ==> registry.file != Missing
    modifies registry, registry.env`log, registry.env`identity, ec2
    ensures old(registry.env.log) <= registry.env.log
    ensures start != Missing ==> registry.file != Missing
    ensures r.NotTracked? <==> !Smooth(old(registry.env.log), registry.env.log)
    ensures OneTry(conf.skipDeallocation, tries, ip, r, old(registry.env.log), registry.env.log, old(ec2.calls), ec2.calls)
    ensures !r.NotTracked? ==>
      ReturnedSoFar(start, registry.file, if r.Complete? then ips + [ip] else ips, begin, registry.clock)
  {
    tries := [];
    if !conf.skipDeallocation {
      var released;
      ghost var t;
      released, t := DeallocateIP(registry.env, ec2, ip);
      tries := [t];
      if !released { return NotReleased, tries; }
    }
    ghost var log, file, now := registry.env.log, registry.file, registry.clock;
    var ok, stamp, io, base := registry.TrackIP(ip);
    Later(old(registry.env.log), log, registry.env.log, Bound(Err));
    if ok && start != Missing { TrackedReturns(start, file, ips, ip, begin, now, stamp, registry.clock); }
    r := if ok then Complete else NotTracked;
  }

  /** The attempts of a DEL: one for each address up to the first that was not given back. */
  ghost predicate Attempts(skip: bool, tries: seq<Try>, addrs: seq<IP>, r: Deleted, done: nat) {
    if skip then tries == [] && !r.NotReleased?
    else
      && |tries| == (if r.Complete? then done else done + 1) <= |addrs|
      && forall i | 0 <= i < |tries| :: tries[i].ip == addrs[i] && (tries[i].ok <==> i < done || r.NotTracked?)
  }

  lemma AttemptsNext(skip: bool, tries: seq<Try>, more: seq<Try>, addrs: seq<IP>, i: nat, r: Deleted)
    requires i < |addrs| && Attempts(skip, tries, addrs, Complete, i)
    requires if skip then more == [] && !r.NotReleased?
             else |more| == 1 && more[0].ip == addrs[i] && (more[0].ok <==> !r.NotReleased?)
    ensures Attempts(skip, tries + more, addrs, r, if r.Complete? then i + 1 else i)
  {
    assert skip ==> tries + more == [];
  }

  lemma TriesNext(
    skip: bool, tries: seq<Try>, more: seq<Try>, ip: IP, r: Deleted,
    log: seq<Answer>, log1: seq<Answer>, log2: seq<Answer>, calls: seq<Call>, calls1: seq<Call>, calls2: seq<Call>)
    requires Made(tries, log, log1, calls, calls1) && OneTry(skip, more, ip, r, log1, log2, calls1, calls2)
    ensures Made(tries + more, log, log2, calls, calls2)
  {
    if skip {
      assert tries + more == tries;
      MadeLater(tries, log, log1, log2, calls, calls1);
    } else {
      assert more == [more[0]];
      MadeNext(tries, more[0], log, log2, calls, calls1, calls2);
    }
  }

  /** The attempts of a DEL are those that the logs and the requests show. */
  ghost predicate Accounted(
    skip: bool, tries: seq<Try>, addrs: seq<IP>, r: Deleted, done: nat,
    log: seq<Answer>, log': seq<Answer>, calls: seq<Call>, calls': seq<Call>)
  {
    Made(tries, log, log', calls, calls') && Attempts(skip, tries, addrs, r, done)
  }

  lemma AccountNext(
    skip: bool, tries: seq<Try>, more: seq<Try>, addrs: seq<IP>, i: nat, r: Deleted,
    log: seq<Answer>, log1: seq<Answer>, log2: seq<Answer>, calls: seq<Call>, calls1: seq<Call>, calls2: seq<Call>)
    requires i < |addrs| && Accounted(skip, tries, addrs, Complete, i, log, log1, calls, calls1)
    requires OneTry(skip, more, addrs[i], r, log1, log2, calls1, calls2)
    ensures Accounted(skip, tries + more, addrs, r, if r.Complete? then i + 1 else i, log, log2, calls, calls2)
  {
    AttemptsNext(skip, tries, more, addrs, i, r);
    TriesNext(skip, tries, more, addrs[i], r, log, log1, log2, calls, calls1, calls2);
  }

  /**
   * `cmdDel` (`:215-251`).  The addresses found in the namespace are given back to EC2, unless that is
   * switched off, and recorded as free, one after the other.  The first failure ends the command:
   * the addresses before it are done, the ones after it are neither given back nor recorded.
   */
  method CmdDel(registry: Registry, ec2: Ec2, conf: Conf, addrs: seq<IP>)
    returns (r: Deleted, ghost done: nat, ghost tries: seq<Try>)
    modifies registry, registry.env`log, registry.env`identity, ec2
    ensures done <= |addrs| && (r.Complete? <==> done == |addrs|)
    ensures r.NotTracked? <==> !Smooth(old(registry.env.log), registry.env.log)
    ensures Accounted(conf.skipDeallocation, tries, addrs, r, done,
                      old(registry.env.log), registry.env.log, old(ec2.calls), ec2.calls)
    ensures !r.NotTracked? ==>
      ReturnedSoFar(old(registry.file), registry.file, addrs[..done], old(registry.clock), registry.clock)
    ensures AsksHolders(old(registry.env.log), registry.env.log, old(ec2.calls), ec2.calls)
  {
    ghost var start, begin, log, calls := registry.file, registry.clock, registry.env.log, ec2.calls;
    done, tries := 0, [];
    for i := 0 to |addrs|
      invariant done == i && Smooth(log, registry.env.log)
      invariant start != Missing ==> registry.file != Missing
      invariant Accounted(conf.skipDeallocation, tries, addrs, Complete, i, log, registry.env.log, calls, ec2.calls)
      invariant ReturnedSoFar(start, registry.file, addrs[..i], begin, registry.clock)
    {
      assert addrs[..i + 1] == addrs[..i] + [addrs[i]];
      ghost var log1, calls1 := registry.env.log, ec2.calls;
      ghost var attempt;
      r, attempt := DeleteOne(registry, ec2, conf, addrs[i], start, begin, addrs[..i]);
      AccountNext(conf.skipDeallocation, tries, attempt, addrs, i, r,
                  log, log1, registry.env.log, calls, calls1, ec2.calls);
      tries := tries + attempt;
      Later(log, log1, registry.env.log, Bound(Err));
      if !r.Complete? {
        MadeAsksHolders(tries, log, registry.env.log, calls, ec2.calls);
        return;
      }
      done := i + 1;
    }
    MadeAsksHolders(tries, log, registry.env.log, calls, ec2.calls);
    r := Complete;
  }

  /** What a DEL gave back: the addresses in order, up to the first failure. */
  lemma DelTakesBack(
    tries: seq<Try>, addrs: seq<IP>, r: Deleted, done: nat,
    log: seq<Answer>, log': seq<Answer>, calls: seq<Call>, calls': seq<Call>)
    requires Accounted(false, tries, addrs, r, done, log, log', calls, calls') && done <= |addrs|
    ensures r.NotTracked? ==> done < |addrs|
    ensures TakenBack(calls') == TakenBack(calls) + addrs[..if r.NotTracked? then done + 1 else done]
  {
    GrantedIsTakenBack(tries, log, log', calls, calls');
    GrantedAttempts(tries, addrs, r, done);
  }

  lemma GrantedAttempts(tries: seq<Try>, addrs: seq<IP>, r: Deleted, done: nat)
    requires Attempts(false, tries, addrs, r, done) && done <= |addrs|
    ensures r.NotTracked? ==> done < |addrs|
    ensures Granted(tries) == addrs[..if r.NotTracked? then done + 1 else done]
  {
    if r.NotReleased? {
      AllGranted(tries[..done], addrs);
    } else {
      AllGranted(tries, addrs);
    }
  }

  lemma {:induction false} AllGranted(tries: seq<Try>, addrs: seq<IP>)
    requires |tries| <= |addrs| && forall i | 0 <= i < |tries| :: tries[i].ok && tries[i].ip == addrs[i]
    ensures Granted(tries) == addrs[..|tries|]
    decreases |tries|
  {
    if tries != [] { AllGranted(tries[..|tries| - 1], addrs); }
  }

  lemma ReturnedLater(m: Entries, m': Entries, ips: seq<IP>, begin: Instant, now: Instant, later: Instant)
    requires Returned(m, m', ips, begin, now) && now <= later
    ensures Returned(m, m', ips, begin, later)
  {
    forall x: IP ensures if x in ips then StampedSince(m', x, begin, later) else Untouched(m, m', x) {
      assert if x in ips then StampedSince(m', x, begin, now) else Untouched(m, m', x);
    }
  }

  // ----- Gateway and name server -----

  newtype Byte = x: int | 0 <= x < 256

  function AddressOf(b: seq<Byte>): int
    requires |b| == 4
  {
    ((b[0] as int * 256 + b[1] as int) * 256 + b[2] as int) * 256 + b[3] as int
  }

  /** The address a fixed distance above another, where only the last byte counts up. */
  function Above(address: int, k: int): int {
    if address % 256 + k < 256 then address + k else address + k - 256
  }

  /**
   * `append(addr[:3], addr[3]+k)` (`:138-141`): the address becomes the one `k` above, wrapping around
   * within its last byte.  There is room for the fourth byte, so this happens in place: the network
   * that the bytes belonged to has the new address too.
   */
  method AppendLast(addr: array<Byte>, k: int) returns (host: array<Byte>)
    requires addr.Length == 4 && 0 <= k < 256
    modifies addr
    ensures host == addr && AddressOf(host[..]) == Above(old(AddressOf(addr[..])), k)
    ensures host[..3] == old(addr[..3]) && host[3] as int == (old(addr[3]) as int + k) % 256
  {
    LastByte(addr[..]);
    addr[3] := ((addr[3] as int + k) % 256) as Byte;
    host := addr;
  }

  lemma LastByte(b: seq<Byte>)
    requires |b| == 4
    ensures AddressOf(b) % 256 == b[3] as int
  {
  }

  /** The next addresses wrap around only at the end of the last byte, and never in aligned networks. */
  lemma AboveExactly(address: int, k: int)
    requires 0 < k < 256
    ensures Above(address, k) / 256 == address / 256 && Above(address, k) % 256 == (address % 256 + k) % 256
    ensures Above(address, k) == address + k <==> address % 256 + k < 256
    ensures address % 4 == 0 && k <= 2 ==> Above(address, k) == address + k
  {
    if address % 4 == 0 {
      var n := address / 4;
      assert address == 4 * n;
      LowBits(n);
    }
  }

  lemma LowBits(n: int)
    ensures 4 * n % 256 == 4 * (n % 64) <= 252
  {
    var q, r := n / 64, n % 64;
    assert 4 * n == 256 * q + 4 * r;
  }

  /**
   * The gateway and the name server (`:135-141`).  For networks of four or more addresses, which
   * start at a multiple of four, they are the first and the second address after the network's own.
   */
  method GatewayAndDns(subnet: array<Byte>, vpc: array<Byte>) returns (gw: array<Byte>, dns: array<Byte>)
    requires subnet.Length == vpc.Length == 4 && subnet != vpc
    modifies subnet, vpc
    ensures gw == subnet && dns == vpc
    ensures AddressOf(gw[..]) == old(AddressOf(subnet[..])) + 1 <==> old(AddressOf(subnet[..])) % 256 + 1 < 256
    ensures AddressOf(dns[..]) == old(AddressOf(vpc[..])) + 2 <==> old(AddressOf(vpc[..])) % 256 + 2 < 256
    ensures old(AddressOf(subnet[..])) % 4 == 0 ==> AddressOf(gw[..]) == old(AddressOf(subnet[..])) + 1
    ensures old(AddressOf(vpc[..])) % 4 == 0 ==> AddressOf(dns[..]) == old(AddressOf(vpc[..])) + 2
  {
    ghost var s, v := AddressOf(subnet[..]), AddressOf(vpc[..]);
    gw := AppendLast(subnet, 1);
    ghost var bytes := gw[..];
    AboveExactly(s, 1);
    dns := AppendLast(vpc, 2);
    AboveExactly(v, 2);
    assert gw[..] == bytes;
  }
}
