/** `aws/allocate.go`: taking addresses from EC2 and giving them back. */
module AwsAllocate {
  import opened Wrap
  import opened JsonTime
  import opened RegistryFile
  import opened Environment
  import opened AwsRegistry
  import opened AwsSubnets
  import opened Ec2Api

  /** The first interface that lists an address, or the number of interfaces. */
  function FirstHolder(intfs: seq<Interface>, ip: IP): (i: nat)
    ensures i <= |intfs|
    ensures i < |intfs| ==> ip in intfs[i].ipv4s
    ensures forall j | 0 <= j < i :: ip !in intfs[j].ipv4s
    decreases |intfs|
  {
    if intfs == [] then 0
    else if ip in intfs[0].ipv4s then 0
    else 1 + FirstHolder(intfs[1..], ip)
  }

  /** The loop over the interfaces and their addresses (`:165-169`). */
  method FindHolder(intfs: seq<Interface>, ip: IP) returns (i: nat)
    ensures i == FirstHolder(intfs, ip)
  {
    i := 0;
    while i < |intfs|
      invariant i <= |intfs|
      invariant forall j | 0 <= j < i :: ip !in intfs[j].ipv4s
    {
      for k := 0 to |intfs[i].ipv4s|
        invariant ip !in intfs[i].ipv4s[..k]
      {
        if ip == intfs[i].ipv4s[k] { return; }
      }
      i := i + 1;
    }
  }

  /**
   * One attempt to give an address back, that began with the log `at`: whether there was a client,
   * what metadata showed, and whether EC2 took the address.
   */
  datatype Try = Try(at: seq<Answer>, ip: IP, client: bool, seen: Result<seq<Interface>>, ok: bool)

  function TryAnswers(t: Try): seq<Answer> {
    if t.client then [Did(MakeClient, true), Interfaces(t.seen)] else [Did(MakeClient, false)]
  }

  /** The request goes to the first interface that metadata shows with the address, as `AsksHolder` says. */
  function TryRequests(t: Try): seq<Call> {
    if t.client && t.seen.Ok? && FirstHolder(t.seen.value, t.ip) < |t.seen.value| then
      [Unassign(t.seen.value[FirstHolder(t.seen.value, t.ip)].id, t.ip, t.ok)]
    else
      []
  }

  /** Without a client, without metadata or without such an interface, an attempt fails. */
  predicate Possible(t: Try) {
    t.ok ==> TryRequests(t) != []
  }

  /** A request to give an address back names the first interface of a logged listing that has the address. */
  ghost predicate AsksHolder(c: Call, log: seq<Answer>, log': seq<Answer>) {
    c.Unassign? &&
    exists seen: seq<Interface>, j: nat ::
      && Answered(log, log', Interfaces(Ok(seen)))
      && j < |seen| && c.eni == seen[j].id && c.ip in seen[j].ipv4s
      && forall i | 0 <= i < j :: c.ip !in seen[i].ipv4s
  }

  /** Between these requests there were only such ones. */
  ghost predicate AsksHolders(log: seq<Answer>, log': seq<Answer>, calls: seq<Call>, calls': seq<Call>) {
    calls <= calls' && forall i | |calls| <= i < |calls'| :: AsksHolder(calls'[i], log, log')
  }

  lemma TryAsksHolder(t: Try)
    requires TryRequests(t) != []
    ensures |TryRequests(t)| == 1 && TryRequests(t)[0].Unassign? && TryRequests(t)[0].ip == t.ip && TryRequests(t)[0].ok == t.ok
    ensures AsksHolder(TryRequests(t)[0], t.at, After(t))
  {
    var seen := t.seen.value;
    assert After(t)[|t.at| + 1] == Interfaces(Ok(seen));
    assert FirstHolder(seen, t.ip) < |seen|;
  }

  lemma AsksHolderLater(c: Call, log: seq<Answer>, log1: seq<Answer>, log2: seq<Answer>, log3: seq<Answer>)
    requires AsksHolder(c, log1, log2) && log <= log1 && log2 <= log3
    ensures AsksHolder(c, log, log3)
  {
    var seen: seq<Interface>, j: nat :|
      && Answered(log1, log2, Interfaces(Ok(seen)))
      && j < |seen| && c.eni == seen[j].id && c.ip in seen[j].ipv4s
      && forall i | 0 <= i < j :: c.ip !in seen[i].ipv4s;
    Later(log, log1, log2, Interfaces(Ok(seen)));
    assert Answered(log, log3, Interfaces(Ok(seen)));
  }

  lemma AsksHoldersLater(log: seq<Answer>, log1: seq<Answer>, log2: seq<Answer>, calls: seq<Call>, calls': seq<Call>)
    requires AsksHolders(log, log1, calls, calls') && log <= log1 <= log2
    ensures AsksHolders(log, log2, calls, calls')
  {
    forall i | |calls| <= i < |calls'| ensures AsksHolder(calls'[i], log, log2) {
      AsksHolderLater(calls'[i], log, log, log1, log2);
    }
  }

  /** `DeallocateIP` (`:156-179`): one attempt, with at most one request. */
  method DeallocateIP(env: Env, ec2: Ec2, ip: IP) returns (ok: bool, ghost t: Try)
    modifies env`log, env`identity, ec2
    ensures t.at == old(env.log) && t.ip == ip && t.ok == ok && Possible(t)
    ensures env.log == old(env.log) + TryAnswers(t)
    ensures ec2.calls == old(ec2.calls) + TryRequests(t)
    ensures AsksHolders(old(env.log), env.log, old(ec2.calls), ec2.calls)
    ensures ok ==> ec2.calls != old(ec2.calls)
    ensures ec2.calls != old(ec2.calls) ==>
      |ec2.calls| == |old(ec2.calls)| + 1 && ec2.calls[|old(ec2.calls)|].ip == ip && ec2.calls[|old(ec2.calls)|].ok == ok
    ensures env.identity.Some? && (t.client <==> env.identity.value.Some?)
    ensures old(env.identity).Some? ==> env.identity == old(env.identity)
  {
    t := Try(env.log, ip, false, Err, false);
    var client := env.NewEC2();
    if !client { return false, t; }
    var interfaces := env.GetInterfaces();
    t := Try(old(env.log), ip, true, interfaces, false);
    assert env.log == old(env.log) + TryAnswers(t);
    if interfaces.Err? { return false, t; }
    var i := FindHolder(interfaces.value, ip);
    if i == |interfaces.value| { return false, t; }
    ok := ec2.UnassignPrivateIpAddresses(interfaces.value[i].id, ip);
    t := Try(old(env.log), ip, true, interfaces, ok);
    TryAsksHolder(t);
  }

  // ----- Attempts in a row -----

  function Requested(tries: seq<Try>): seq<Call> {
    if tries == [] then [] else Requested(tries[..|tries| - 1]) + TryRequests(tries[|tries| - 1])
  }

  /** The log right after an attempt. */
  function After(t: Try): seq<Answer> {
    t.at + TryAnswers(t)
  }

  /**
   * These attempts were made one after the other between the two logs, and asked for exactly these
   * requests; whatever else the log shows came in between.
   */
  ghost predicate Made(tries: seq<Try>, log: seq<Answer>, log': seq<Answer>, calls: seq<Call>, calls': seq<Call>)
    decreases |tries|
  {
    log <= log' &&
    if tries == [] then calls' == calls
    else
      var n := |tries| - 1;
      && Possible(tries[n]) && After(tries[n]) <= log'
      && calls' == calls + Requested(tries)
      && Made(tries[..n], log, tries[n].at, calls, calls + Requested(tries[..n]))
  }

  lemma MadeNext(
    tries: seq<Try>, t: Try, log: seq<Answer>, log': seq<Answer>, calls: seq<Call>, calls1: seq<Call>, calls2: seq<Call>)
    requires Made(tries, log, t.at, calls, calls1) && Possible(t)
    requires After(t) <= log' && calls2 == calls1 + TryRequests(t)
    ensures Made(tries + [t], log, log', calls, calls2)
  {
    var all := tries + [t];
    assert all[..|tries|] == tries;
    assert calls1 == calls + Requested(tries);
  }

  lemma MadeLater(
    tries: seq<Try>, log: seq<Answer>, log1: seq<Answer>, log2: seq<Answer>, calls: seq<Call>, calls': seq<Call>)
    requires Made(tries, log, log1, calls, calls') && log1 <= log2
    ensures Made(tries, log, log2, calls, calls')
  {
  }

  /** What EC2 took back is what the attempts that succeeded were about. */
  function Granted(tries: seq<Try>): seq<IP> {
    if tries == [] then []
    else Granted(tries[..|tries| - 1]) + if tries[|tries| - 1].ok then [tries[|tries| - 1].ip] else []
  }

  lemma TryTakenBack(calls: seq<Call>, t: Try)
    requires Possible(t)
    ensures TakenBack(calls + TryRequests(t)) == TakenBack(calls) + if t.ok then [t.ip] else []
  {
    var after := calls + TryRequests(t);
    if TryRequests(t) == [] {
      assert after == calls;
    } else {
      assert after[..|calls|] == calls;
    }
  }

  lemma {:induction false} GrantedIsTakenBack(
    tries: seq<Try>, log: seq<Answer>, log': seq<Answer>, calls: seq<Call>, calls': seq<Call>)
    requires Made(tries, log, log', calls, calls')
    ensures TakenBack(calls') == TakenBack(calls) + Granted(tries)
    decreases |tries|
  {
    if tries != [] {
      var n := |tries| - 1;
      var before := calls + Requested(tries[..n]);
      GrantedIsTakenBack(tries[..n], log, tries[n].at, calls, before);
      assert calls' == before + TryRequests(tries[n]);
      TryTakenBack(before, tries[n]);
    }
  }

  /** Whatever the attempts were, each request names an interface that the listing of its attempt shows with the address. */
  lemma {:induction false} MadeAsksHolders(
    tries: seq<Try>, log: seq<Answer>, log': seq<Answer>, calls: seq<Call>, calls': seq<Call>)
    requires Made(tries, log, log', calls, calls')
    ensures AsksHolders(log, log', calls, calls')
    decreases |tries|
  {
    if tries != [] {
      var n := |tries| - 1;
      var t, before := tries[n], calls + Requested(tries[..n]);
      MadeAsksHolders(tries[..n], log, t.at, calls, before);
      assert calls' == before + TryRequests(t);
      forall i | |calls| <= i < |calls'| ensures AsksHolder(calls'[i], log, log') {
        if i < |before| {
          AsksHolderLater(before[i], log, log, t.at, log');
        } else {
          TryAsksHolder(t);
          AsksHolderLater(calls'[i], log, t.at, After(t), log');
        }
      }
    }
  }

  // ----- Taking addresses -----

  /** What an allocation consulted and where it was placed. */
  datatype Placement =
    | Unanswered
    | NoneOffers(intfs: seq<Interface>, name: Option<string>, limits: Limits, subnets: seq<Subnet>)
    | Placed(intfs: seq<Interface>, name: Option<string>, limits: Limits, subnets: seq<Subnet>,
             on: Interface, home: Subnet)

  /** The answers that a placement was computed from. */
  function Consulted(p: Placement): seq<Answer>
    requires !p.Unanswered?
  {
    [Interfaces(Ok(p.intfs)), InstanceType(p.name), LimitsAre(p.limits), Subnets(Ok(p.subnets))]
  }

  /** How many addresses to request on an interface that has `have` of them (`:47-53`). */
  function RequestCount(limit: int, have: nat, batchSize: int): int {
    var available := limit - have;
    if batchSize == 0 || available < batchSize then available else batchSize
  }

  /**
   * A request is for one to all of the free slots exactly if there is a slot and the batch is not
   * negative.  It is for all of them with batch size zero, and else for the batch as far as they last.
   */
  lemma RequestFits(limit: int, have: nat, batchSize: int)
    ensures 1 <= RequestCount(limit, have, batchSize) <= limit - have <==> have < limit && 0 <= batchSize
    ensures batchSize == 0 ==> RequestCount(limit, have, batchSize) == limit - have
    ensures batchSize != 0 ==>
      var n := RequestCount(limit, have, batchSize);
      n <= limit - have && n <= batchSize && (n == limit - have || n == batchSize)
  {
  }

  /** Registered since `begin`, in an entry that further writes keep. */
  ghost predicate StampedSince(m: Entries, x: IP, begin: Instant, now: Instant) {
    x in m && IsWhole(m[x]) && begin - SECOND < m[x] <= now
  }

  ghost predicate AllStamped(r: seq<AllocationResult>, m: Entries, begin: Instant, now: Instant) {
    forall a | a in r :: StampedSince(m, a.ip, begin, now)
  }

  /** Each result is an address that the new view shows and the old one did not, and none comes twice. */
  ghost predicate NewOn(r: seq<AllocationResult>, before: Interface, shown: Interface) {
    && (forall a | a in r :: a.intf == shown && a.ip in shown.ipv4s && a.ip !in before.ipv4s)
    && (forall i, j | 0 <= i < j < |r| :: r[i].ip != r[j].ip)
  }

  /** The results are among these addresses, in their order. */
  ghost predicate InOrder(r: seq<AllocationResult>, ips: seq<IP>)
    decreases |ips|
  {
    r == [] ||
    (ips != [] &&
      var front, last := ips[..|ips| - 1], ips[|ips| - 1];
      InOrder(r, front) || (r[|r| - 1].ip == last && InOrder(r[..|r| - 1], front)))
  }

  lemma InOrderNext(r: seq<AllocationResult>, ips: seq<IP>, a: AllocationResult)
    requires InOrder(r, ips)
    ensures InOrder(r, ips + [a.ip]) && InOrder(r + [a], ips + [a.ip])
  {
    assert (ips + [a.ip])[..|ips|] == ips && (r + [a])[..|r|] == r;
  }

  lemma {:induction false} InOrderPrefix(r: seq<AllocationResult>, ips: seq<IP>, n: nat)
    requires n <= |ips| && InOrder(r, ips[..n])
    ensures InOrder(r, ips)
    decreases |ips|
  {
    if n < |ips| {
      assert ips[..|ips| - 1][..n] == ips[..n];
      InOrderPrefix(r, ips[..|ips| - 1], n);
    } else {
      assert ips[..n] == ips;
    }
  }

  /** Every new address among `ips` is a result or was registered already. */
  ghost predicate NoneMissed(r: seq<AllocationResult>, before: Interface, ips: seq<IP>, m: Entries) {
    forall x | x in ips && x !in before.ipv4s :: Lists(r, x) || x in m
  }

  /** The results were not registered, and nothing else in the registry changed. */
  ghost predicate OnlyAdded(r: seq<AllocationResult>, m: Entries, m': Entries) {
    forall x: IP :: if Lists(r, x) then x !in m && x in m' else Untouched(m, m', x)
  }

  /** Tracking one more address keeps the stamps of the earlier ones. */
  lemma StampNext(
    r: seq<AllocationResult>, m: Entries, begin: Instant, now: Instant, a: AllocationResult, stamp: Instant, later: Instant)
    requires AllStamped(r, m, begin, now) && begin <= now <= stamp <= later
    ensures AllStamped(r + [a], Decode(Saved(Updated(m, a.ip, Some(stamp)))), begin, later)
  {
    var m' := Updated(m, a.ip, Some(stamp));
    StoredOnce(stamp);
    forall b | b in r + [a] ensures StampedSince(Floored(m'), b.ip, begin, later) {
      if b.ip != a.ip { assert b in r; }
    }
  }

  lemma AddNext(r: seq<AllocationResult>, m: Entries, m1: Entries, a: AllocationResult, stamp: Instant)
    requires Whole(m1) && OnlyAdded(r, m, m1) && a.ip !in m1
    ensures
      var m2 := Decode(Saved(Updated(m1, a.ip, Some(stamp))));
      Whole(m2) && OnlyAdded(r + [a], m, m2)
  {
    SaveEffect(Document(SCHEMA_VERSION, Some(m1)), a.ip, Some(stamp));
    forall x: IP ensures
      var m2 := Floored(Updated(m1, a.ip, Some(stamp)));
      if Lists(r + [a], x) then x !in m && x in m2 else Untouched(m, m2, x)
    {
      ListsNext(r, a, x);
      assert if Lists(r, x) then x !in m && x in m1 else Untouched(m, m1, x);
    }
  }

  lemma MissNext(r: seq<AllocationResult>, r': seq<AllocationResult>, before: Interface, ips: seq<IP>, i: nat, m: Entries)
    requires i < |ips| && NoneMissed(r, before, ips[..i], m)
    requires r' == r || exists a :: r' == r + [a]
    requires ips[i] in before.ipv4s || Lists(r', ips[i]) || ips[i] in m
    ensures NoneMissed(r', before, ips[..i + 1], m)
  {
    forall x | x in ips[..i + 1] && x !in before.ipv4s ensures Lists(r', x) || x in m {
      if x != ips[i] {
        assert x in ips[..i];
        if r' != r {
          var a :| r' == r + [a];
          ListsNext(r, a, x);
        }
      }
    }
  }

  /** Results so far after `i` of the new view's addresses, in a registry that began with `m`. */
  ghost predicate Gathered(
    r: seq<AllocationResult>, before: Interface, ips: seq<IP>, readsOk: bool, m: Entries, m': Entries)
  {
    Whole(m') && OnlyAdded(r, m, m') && (readsOk ==> NoneMissed(r, before, ips, m))
  }

  /**
   * One new address (`:76-88`).  A registered address is left out; any other one becomes a result
   * and is stamped.
   */
  method CollectOne(
    registry: Registry, shown: Interface, newIp: IP, before: seq<AllocationResult>, ghost begin: Instant)
    returns (r: seq<AllocationResult>, failed: bool)
    requires begin <= registry.clock
    requires AllStamped(before, Decode(registry.file), begin, registry.clock)
    requires before != [] ==> registry.file != Missing
    modifies registry, registry.env`log
    ensures old(registry.clock) <= registry.clock
    ensures Traffic(old(registry.env.log), registry.env.log)
    ensures r == before || r == before + [AllocationResult(newIp, shown)]
    ensures failed ==> r != before && !Smooth(old(registry.env.log), registry.env.log)
    ensures r != before ==> !Lists(before, newIp)
    ensures !failed ==> AllStamped(r, Decode(registry.file), begin, registry.clock)
    ensures !failed && r != [] ==> registry.file != Missing
    ensures old(registry.file) != Missing ==>
      var m := Decode(old(registry.file));
      && registry.file != Missing && Unasked(old(registry.env.log), registry.env.log)
      && (r == before ==> registry.file == old(registry.file))
      && (r != before ==> newIp !in m)
      && (r == before && Smooth(old(registry.env.log), registry.env.log) ==> newIp in m)
      && (r != before && !failed ==> exists t :: Decode(registry.file) == Decode(Saved(Updated(m, newIp, Some(t)))))
  {
    r, failed := before, false;
    var known := registry.HasIP(newIp);
    if known.Ok? && !known.value {
      var result := AllocationResult(newIp, shown);
      r := before + [result];
      ghost var m1, now1 := Decode(registry.file), registry.clock;
      var ok, stamp, io, base := registry.TrackIP(newIp);
      if !ok { return r, true; }
      StampNext(before, base, begin, now1, result, stamp, registry.clock);
    }
  }

  lemma GatherNext(
    r: seq<AllocationResult>, r': seq<AllocationResult>, before: Interface, shown: Interface, i: nat,
    readsOk: bool, readsOk': bool, m: Entries, m1: Entries, m2: Entries)
    requires i < |shown.ipv4s| && (readsOk' ==> readsOk)
    requires Gathered(r, before, shown.ipv4s[..i], readsOk, m, m1)
    requires
      var a := AllocationResult(shown.ipv4s[i], shown);
      || (r' == r && m2 == m1 && (a.ip in before.ipv4s || !readsOk' || a.ip in m1))
      || (r' == r + [a] && a.ip !in m1 && exists t :: m2 == Decode(Saved(Updated(m1, a.ip, Some(t)))))
    ensures Gathered(r', before, shown.ipv4s[..i + 1], readsOk', m, m2)
  {
    var a := AllocationResult(shown.ipv4s[i], shown);
    if r' == r {
      assert if Lists(r, a.ip) then a.ip !in m && a.ip in m1 else Untouched(m, m1, a.ip);
    } else {
      var t :| m2 == Decode(Saved(Updated(m1, a.ip, Some(t))));
      AddNext(r, m, m1, a, t);
      ListsNext(r, a, a.ip);
    }
    if readsOk' { MissNext(r, r', before, shown.ipv4s, i, m); }
  }

  lemma NewNext(r: seq<AllocationResult>, before: Interface, shown: Interface, ip: IP)
    requires NewOn(r, before, shown) && ip in shown.ipv4s && ip !in before.ipv4s
    ensures !Lists(r, ip) ==> NewOn(r + [AllocationResult(ip, shown)], before, shown)
  {
  }

  /** The results of the first `i` addresses of the view. */
  ghost predicate Found(r: seq<AllocationResult>, before: Interface, shown: Interface, i: nat) {
    i <= |shown.ipv4s| && NewOn(r, before, shown) && InOrder(r, shown.ipv4s[..i])
  }

  lemma FoundNext(r: seq<AllocationResult>, r': seq<AllocationResult>, before: Interface, shown: Interface, i: nat)
    requires i < |shown.ipv4s| && Found(r, before, shown, i)
    requires
      var a := AllocationResult(shown.ipv4s[i], shown);
      r' == r || (r' == r + [a] && !Lists(r, a.ip) && a.ip !in before.ipv4s)
    ensures Found(r', before, shown, i + 1)
  {
    assert shown.ipv4s[..i + 1] == shown.ipv4s[..i] + [shown.ipv4s[i]];
    InOrderNext(r, shown.ipv4s[..i], AllocationResult(shown.ipv4s[i], shown));
    if r' != r { NewNext(r, before, shown, shown.ipv4s[i]); }
  }

  /** A poll that began with this file, clock and log, after the first `i` addresses of the view. */
  ghost predicate Collecting(
    start: File, begin: Instant, log: seq<Answer>, r: seq<AllocationResult>, before: Interface, shown: Interface,
    i: nat, file: File, clock: Instant, log': seq<Answer>)
  {
    && begin <= clock && Traffic(log, log') && Found(r, before, shown, i)
    && AllStamped(r, Decode(file), begin, clock)
    && (r != [] ==> file != Missing)
    && (start != Missing ==>
          && file != Missing && Unasked(log, log')
          && (r == [] ==> file == start)
          && (Whole(Decode(start)) ==>
                Gathered(r, before, shown.ipv4s[..i], Smooth(log, log'), Decode(start), Decode(file))))
  }

  /** The next address of the view (`:75-90`). */
  method CollectNext(
    registry: Registry, before: Interface, shown: Interface, i: nat, soFar: seq<AllocationResult>,
    ghost start: File, ghost begin: Instant, ghost log: seq<Answer>)
    returns (r: seq<AllocationResult>, failed: bool)
    requires i < |shown.ipv4s|
    requires Collecting(start, begin, log, soFar, before, shown, i, registry.file, registry.clock, registry.env.log)
    modifies registry, registry.env`log
    ensures !failed ==>
      Collecting(start, begin, log, r, before, shown, i + 1, registry.file, registry.clock, registry.env.log)
    ensures failed ==>
      && begin <= registry.clock && Traffic(log, registry.env.log) && !Smooth(log, registry.env.log)
      && r != [] && Found(r, before, shown, i + 1)
      && (start != Missing ==> registry.file != Missing && Unasked(log, registry.env.log))
  {
    r, failed := soFar, false;
    var newIp := shown.ipv4s[i];
    ghost var m1, log1, smooth := Decode(registry.file), registry.env.log, Smooth(log, registry.env.log);
    if newIp !in before.ipv4s {
      r, failed := CollectOne(registry, shown, newIp, soFar, begin);
      Later(log, log1, registry.env.log, Bound(Err));
    }
    FoundNext(soFar, r, before, shown, i);
    if !failed && start != Missing && Whole(Decode(start)) {
      GatherNext(soFar, r, before, shown, i, smooth, Smooth(log, registry.env.log), Decode(start), m1, Decode(registry.file));
    }
  }

  /**
   * The new addresses of one poll (`:74-91`).  Addresses that are registered already are left out;
   * the others are stamped as they are found.
   */
  method CollectNew(registry: Registry, before: Interface, shown: Interface)
    returns (r: seq<AllocationResult>, failed: bool)
    modifies registry, registry.env`log
    ensures old(registry.clock) <= registry.clock
    ensures Traffic(old(registry.env.log), registry.env.log)
    ensures NewOn(r, before, shown) && InOrder(r, shown.ipv4s)
    ensures failed ==> r != [] && !Smooth(old(registry.env.log), registry.env.log)
    ensures !failed ==> AllStamped(r, Decode(registry.file), old(registry.clock), registry.clock)
    ensures old(registry.file) != Missing ==>
      registry.file != Missing && Unasked(old(registry.env.log), registry.env.log)
    ensures old(registry.file) != Missing && r == [] ==> registry.file == old(registry.file)
    ensures old(registry.file) != Missing && !failed && Whole(Decode(old(registry.file))) ==>
      Gathered(r, before, shown.ipv4s, Smooth(old(registry.env.log), registry.env.log),
               Decode(old(registry.file)), Decode(registry.file))
  {
    r, failed := [], false;
    ghost var start, begin, log := registry.file, registry.clock, registry.env.log;
    for i := 0 to |shown.ipv4s|
      invariant !failed
      invariant Collecting(start, begin, log, r, before, shown, i, registry.file, registry.clock, registry.env.log)
    {
      r, failed := CollectNext(registry, before, shown, i, r, start, begin, log);
      if failed {
        InOrderPrefix(r, shown.ipv4s, i + 1);
        return;
      }
    }
    assert shown.ipv4s[..|shown.ipv4s|] == shown.ipv4s;
  }

  const POLLS := 10

  datatype Asking = NoClient | Asking(name: Option<string>, limits: Limits, granted: bool)

  /** Every allocation asks once, for the clipped number of addresses, unless it has no client. */
  ghost predicate Asks(
    q: Asking, log: seq<Answer>, log': seq<Answer>, calls: seq<Call>, calls': seq<Call>, intf: Interface, batchSize: int)
  {
    match q
    case NoClient => log' == log + [Did(MakeClient, false)] && calls' == calls
    case Asking(name, limits, granted) =>
      && log + [Did(MakeClient, true), InstanceType(name), LimitsAre(limits)] <= log'
      && calls' == calls + [Assign(intf.id, RequestCount(limits.ipv4, |intf.ipv4s|, batchSize), granted)]
  }

  /** There was one more request: for all available addresses, or for the batch as far as they last. */
  ghost predicate AsksFor(calls: seq<Call>, calls': seq<Call>, intf: Interface, available: int, batchSize: int, granted: bool) {
    exists count ::
      && calls' == calls + [Assign(intf.id, count, granted)]
      && (batchSize == 0 ==> count == available)
      && (batchSize != 0 ==> count <= available && count <= batchSize && (count == available || count == batchSize))
  }

  /** Why an allocation brought no address: no client, a refusal, or all polls in vain. */
  ghost predicate CameToNothing(q: Asking, log: seq<Answer>, log': seq<Answer>) {
    q.NoClient? || !q.granted || Polls(log') == Polls(log) + POLLS
  }

  lemma ConsultedPolls(log: seq<Answer>, p: Placement)
    requires !p.Unanswered?
    ensures Polls(log + Consulted(p)) == Polls(log)
  {
    var one := log + [Consulted(p)[0]];
    var two := one + [Consulted(p)[1]];
    var three := two + [Consulted(p)[2]];
    PollsNext(log, Consulted(p)[0]);
    PollsNext(one, Consulted(p)[1]);
    PollsNext(two, Consulted(p)[2]);
    PollsNext(three, Consulted(p)[3]);
    assert log + Consulted(p) == three + [Consulted(p)[3]];
  }

  /** The request (`:34-60`). */
  method Ask(env: Env, ec2: Ec2, intf: Interface, batchSize: int) returns (ok: bool, ghost q: Asking)
    requires env.Valid()
    modifies env`log, env`identity, env.limitsCache, ec2
    ensures env.Valid()
    ensures Asks(q, old(env.log), env.log, old(ec2.calls), ec2.calls, intf, batchSize)
    ensures old(env.log) <= env.log && Polls(env.log) == Polls(old(env.log))
    ensures ok <==> q.Asking? && q.granted
    ensures q.Asking? ==> AsksFor(old(ec2.calls), ec2.calls, intf, q.limits.ipv4 - |intf.ipv4s|, batchSize, ok)
    ensures q.NoClient? ==> ec2.calls == old(ec2.calls)
  {
    q := NoClient;
    var client := env.NewEC2();
    PollsNext(old(env.log), Did(MakeClient, client));
    if !client { return false, q; }
    var limits, _, name, _ := env.ENILimits();
    AskingPolls(old(env.log), name, limits);
    assert env.log == old(env.log) + [Did(MakeClient, true), InstanceType(name), LimitsAre(limits)];
    ok := Request(ec2, intf, limits.ipv4, batchSize);
    q := Asking(name, limits, ok);
  }

  lemma AskingPolls(log: seq<Answer>, name: Option<string>, limits: Limits)
    ensures Polls(log + [Did(MakeClient, true), InstanceType(name), LimitsAre(limits)]) == Polls(log)
  {
    var one := log + [Did(MakeClient, true)];
    var two := one + [InstanceType(name)];
    PollsNext(log, Did(MakeClient, true));
    PollsNext(one, InstanceType(name));
    PollsNext(two, LimitsAre(limits));
    assert log + [Did(MakeClient, true), InstanceType(name), LimitsAre(limits)] == two + [LimitsAre(limits)];
  }

  /** The clipped request itself (`:45-57`). */
  method Request(ec2: Ec2, intf: Interface, limit: int, batchSize: int) returns (ok: bool)
    modifies ec2
    ensures ec2.calls == old(ec2.calls) + [Assign(intf.id, RequestCount(limit, |intf.ipv4s|, batchSize), ok)]
    ensures AsksFor(old(ec2.calls), ec2.calls, intf, limit - |intf.ipv4s|, batchSize, ok)
  {
    var available := limit - |intf.ipv4s|;
    var count := batchSize;
    // zero stands for as many as there is room for
    if count == 0 || available < count { count := available; }
    ok := ec2.AssignPrivateIpAddresses(intf.id, count);
  }

  /**
   * The polls (`:68-101`).  They end with a view, among the answers, that shows new addresses, or
   * after all of them.
   */
  method PollForNew(registry: Registry, intf: Interface)
    returns (r: seq<AllocationResult>, err: bool, ghost shown: Interface)
    modifies registry, registry.env`log
    ensures old(registry.clock) <= registry.clock
    ensures old(registry.env.log) <= registry.env.log
    ensures Polls(registry.env.log) <= Polls(old(registry.env.log)) + POLLS
    ensures r == [] ==> err && Polls(registry.env.log) == Polls(old(registry.env.log)) + POLLS
    ensures r != [] ==>
      && NewOn(r, intf, shown) && InOrder(r, shown.ipv4s) && |shown.ipv4s| != |intf.ipv4s|
      && Answered(old(registry.env.log), registry.env.log, OneInterface(intf.mac, Ok(shown)))
    ensures err && r != [] ==> !Smooth(old(registry.env.log), registry.env.log)
    ensures !err ==> AllStamped(r, Decode(registry.file), old(registry.clock), registry.clock)
    ensures old(registry.file) != Missing ==>
      && registry.file != Missing
      && (r == [] ==> registry.file == old(registry.file))
      && (!err && Whole(Decode(old(registry.file))) ==>
            Gathered(r, intf, shown.ipv4s, Smooth(old(registry.env.log), registry.env.log),
                     Decode(old(registry.file)), Decode(registry.file)))
  {
    r, err, shown := [], true, intf;
    for attempts := POLLS downto 0
      invariant old(registry.env.log) <= registry.env.log
      invariant Polls(registry.env.log) == Polls(old(registry.env.log)) + POLLS - attempts
      invariant old(registry.clock) <= registry.clock && r == [] && err
      invariant old(registry.file) != Missing ==> registry.file == old(registry.file)
    {
      ghost var log := registry.env.log;
      var newIntf := registry.env.GetInterface(intf.mac);
      PollsNext(log, OneInterface(intf.mac, newIntf));
      if newIntf.Err? { continue; }
      if |newIntf.value.ipv4s| != |intf.ipv4s| {
        shown := newIntf.value;
        ghost var begin, polled := registry.clock, registry.env.log;
        var failed;
        r, failed := CollectNew(registry, intf, newIntf.value);
        TrafficCounts(polled, registry.env.log);
        assert registry.env.log[|log|] == OneInterface(intf.mac, Ok(shown));
        if failed { return; }
        if |r| > 0 {
          err := false;
          StampsFromEarlier(r, Decode(registry.file), old(registry.clock), begin, registry.clock);
          if old(registry.file) != Missing && Whole(Decode(old(registry.file))) {
            GatheredSmooth(r, intf, shown.ipv4s, Smooth(polled, registry.env.log),
                           Smooth(old(registry.env.log), registry.env.log), Decode(old(registry.file)), Decode(registry.file));
          }
          return;
        }
      }
    }
  }

  lemma GatheredSmooth(
    r: seq<AllocationResult>, before: Interface, ips: seq<IP>, smooth: bool, smooth': bool, m: Entries, m': Entries)
    requires Gathered(r, before, ips, smooth, m, m') && (smooth' ==> smooth)
    ensures Gathered(r, before, ips, smooth', m, m')
  {
  }

  lemma StampsFromEarlier(r: seq<AllocationResult>, m: Entries, earlier: Instant, begin: Instant, now: Instant)
    requires earlier <= begin && AllStamped(r, m, begin, now)
    ensures AllStamped(r, m, earlier, now)
  {
  }

  /**
   * `AllocateIPsOn` (`:33-105`): one request, then up to ten polls of metadata for the addresses it
   * brought.  `shown` is the view in which they were found.
   */
  method AllocateIPsOn(registry: Registry, ec2: Ec2, intf: Interface, batchSize: int)
    returns (r: seq<AllocationResult>, err: bool, ghost q: Asking, ghost shown: Interface)
    requires registry.env.Valid()
    modifies registry, registry.env`log, registry.env`identity, registry.env.limitsCache, ec2
    ensures registry.env.Valid() && old(registry.clock) <= registry.clock
    ensures Asks(q, old(registry.env.log), registry.env.log, old(ec2.calls), ec2.calls, intf, batchSize)
    ensures q.Asking? ==> AsksFor(old(ec2.calls), ec2.calls, intf, q.limits.ipv4 - |intf.ipv4s|, batchSize, q.granted)
    ensures q.NoClient? || !q.granted ==>
      r == [] && err && Polls(registry.env.log) == Polls(old(registry.env.log)) && registry.file == old(registry.file)
    ensures Polls(registry.env.log) <= Polls(old(registry.env.log)) + POLLS
    ensures q.Asking? && q.granted && r == [] ==> Polls(registry.env.log) == Polls(old(registry.env.log)) + POLLS
    ensures !err ==> r != []
    ensures r != [] ==>
      && NewOn(r, intf, shown) && InOrder(r, shown.ipv4s) && |shown.ipv4s| != |intf.ipv4s|
      && Answered(old(registry.env.log), registry.env.log, OneInterface(intf.mac, Ok(shown)))
    ensures err && r != [] ==> !Smooth(old(registry.env.log), registry.env.log)
    ensures !err ==> AllStamped(r, Decode(registry.file), old(registry.clock), registry.clock)
    ensures old(registry.file) != Missing ==>
      && registry.file != Missing
      && (r == [] ==> registry.file == old(registry.file))
      && (!err && Whole(Decode(old(registry.file))) ==>
            Gathered(r, intf, shown.ipv4s, Smooth(old(registry.env.log), registry.env.log),
                     Decode(old(registry.file)), Decode(registry.file)))
  {
    r, err, shown := [], true, intf;
    var ok;
    ok, q := Ask(registry.env, ec2, intf, batchSize);
    if !ok { return; }
    ghost var log := registry.env.log;
    r, err, shown := PollForNew(registry, intf);
    Later(old(registry.env.log), log, registry.env.log, OneInterface(intf.mac, Ok(shown)));
    if !err && old(registry.file) != Missing && Whole(Decode(old(registry.file))) {
      GatheredSmooth(r, intf, shown.ipv4s, Smooth(log, registry.env.log),
                     Smooth(old(registry.env.log), registry.env.log), Decode(old(registry.file)), Decode(registry.file));
    }
  }

  /**
   * `AllocateIPsFirstAvailableAtIndex` (`:109-147`).  A request goes to the best placed interface,
   * and to none exactly if no interface numbered `index` or above offers an address, going by the
   * interfaces, limits and subnets that were answered.
   */
  method AllocateIPsFirstAvailableAtIndex(registry: Registry, ec2: Ec2, index: int, batchSize: int)
    returns (r: seq<AllocationResult>, err: bool, ghost why: Placement, ghost q: Asking, ghost shown: Interface)
    requires registry.env.Valid()
    modifies registry, registry.env`log, registry.env`identity, registry.env.limitsCache, registry.env.subnetsCache, ec2
    ensures registry.env.Valid() && old(registry.clock) <= registry.clock
    ensures why.Unanswered? ==>
      || registry.env.log == old(registry.env.log) + [Interfaces(Err)]
      || (exists intfs, name, limits :: registry.env.log ==
            old(registry.env.log) + [Interfaces(Ok(intfs)), InstanceType(name), LimitsAre(limits), Subnets(Err)])
    ensures why.NoneOffers? ==>
      && registry.env.log == old(registry.env.log) + Consulted(why)
      && !exists x, s :: x in why.intfs && s in why.subnets && Offers(x, s, index, why.limits.ipv4)
    ensures !why.Placed? ==> ec2.calls == old(ec2.calls) && r == [] && err
    ensures why.Placed? ==>
      && why.on in why.intfs && why.home in why.subnets && Offers(why.on, why.home, index, why.limits.ipv4)
      && (forall x, s | x in why.intfs && s in why.subnets && Offers(x, s, index, why.limits.ipv4) ::
            s.available <= why.home.available)
      && Asks(q, old(registry.env.log) + Consulted(why), registry.env.log, old(ec2.calls), ec2.calls, why.on, batchSize)
    ensures !err ==> r != []
    ensures r != [] ==>
      && why.Placed? && NewOn(r, why.on, shown) && InOrder(r, shown.ipv4s)
      && Answered(old(registry.env.log), registry.env.log, OneInterface(why.on.mac, Ok(shown)))
    ensures err && r != [] ==> !Smooth(old(registry.env.log), registry.env.log)
    ensures why.Placed? && r == [] ==> CameToNothing(q, old(registry.env.log), registry.env.log)
    ensures !err ==> AllStamped(r, Decode(registry.file), old(registry.clock), registry.clock)
    ensures old(registry.file) != Missing ==>
      && registry.file != Missing
      && (r == [] ==> registry.file == old(registry.file))
      && (!err && Whole(Decode(old(registry.file))) ==>
            Whole(Decode(registry.file)) && OnlyAdded(r, Decode(old(registry.file)), Decode(registry.file)))
  {
    r, err, why, q := [], true, Unanswered, NoClient;
    shown := Interface("", "", 0, [], "");
    var interfaces := registry.env.GetInterfaces();
    if interfaces.Err? { return; }
    var limits, _, name, _ := registry.env.ENILimits();
    var subnets := registry.env.GetSubnetsForInstance();
    assert registry.env.log == old(registry.env.log) + [Interfaces(interfaces), InstanceType(name), LimitsAre(limits), Subnets(subnets)];
    if subnets.Err? { return; }
    var chosen;
    ghost var home;
    chosen, home := ChooseInterface(interfaces.value, subnets.value, index, limits.ipv4);
    if chosen.None? {
      why := NoneOffers(interfaces.value, name, limits, subnets.value);
      return;
    }
    why := Placed(interfaces.value, name, limits, subnets.value, chosen.value, home.value);
    ConsultedPolls(old(registry.env.log), why);
    r, err, q, shown := AllocateIPsOn(registry, ec2, chosen.value, batchSize);
  }
}
