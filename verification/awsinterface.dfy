/** `aws/interface.go`: creating, attaching and removing elastic network interfaces (ENIs). */
module AwsInterface {
  import opened Wrap
  import opened JsonTime
  import opened RegistryFile
  import opened Environment
  import opened AwsRegistry
  import opened AwsSubnets
  import opened Ec2Api

  // ----- What a request log left behind -----

  /** Whether an ENI was created and not deleted, going by the answers. */
  ghost predicate Standing(calls: seq<Call>, eni: string) {
    calls != [] &&
    var last := calls[|calls| - 1];
    if last.Create? && last.made.Ok? && last.made.value.id == eni then true
    else if last == Delete(eni, true) then false
    else Standing(calls[..|calls| - 1], eni)
  }

  /** The interface was detached and then seen to be available. */
  ghost predicate Parted(calls: seq<Call>, eni: string) {
    exists i, j :: 0 <= i < j < |calls| && calls[i] == Detach(eni, true) && calls[j] == Describe(eni, Ok("available"))
  }

  /** No deletion was requested, unless the interface had been detached and seen to be available. */
  ghost predicate DeletesParted(calls: seq<Call>) {
    forall n | 0 <= n < |calls| && calls[n].Delete? :: Parted(calls[..n], calls[n].eni)
  }

  function Describes(calls: seq<Call>): nat {
    if calls == [] then 0
    else Describes(calls[..|calls| - 1]) + if calls[|calls| - 1].Describe? then 1 else 0
  }

  lemma StandingNext(calls: seq<Call>, call: Call, eni: string)
    ensures Standing(calls + [call], eni) <==>
      || (call.Create? && call.made.Ok? && call.made.value.id == eni)
      || (call != Delete(eni, true) && Standing(calls, eni))
  {
    assert (calls + [call])[..|calls|] == calls;
  }

  // ----- Creating -----

  /** How many secondary addresses to request with a new ENI (`:66-75`); it has a primary one anyway. */
  function SecondaryCount(limit: int, batchSize: int): Option<int> {
    var batch := if batchSize == 0 || batchSize > limit then limit else batchSize;
    if batch - 1 > 0 then Some(batch - 1) else None
  }

  function NewCount(limit: int, batchSize: int): int {
    match SecondaryCount(limit, batchSize)
    case None => 1
    case Some(n) => 1 + n
  }

  /**
   * A new ENI gets at least one address and, for every batch size, no more than a positive limit: the
   * limit with batch size zero, and else the batch as far as the limit allows.
   */
  lemma NewEniFits(limit: int, batchSize: int)
    ensures 1 <= NewCount(limit, batchSize)
    ensures NewCount(limit, batchSize) <= limit <==> 1 <= limit
    ensures 1 <= batchSize <= limit ==> NewCount(limit, batchSize) == batchSize
    ensures 1 <= limit && (batchSize == 0 || limit < batchSize) ==> NewCount(limit, batchSize) == limit
    ensures batchSize < 0 || limit < 1 ==> NewCount(limit, batchSize) == 1
    ensures SecondaryCount(limit, batchSize).Some? ==> 0 < SecondaryCount(limit, batchSize).value
  {
  }

  const SETTLE_TIME := 30 * SECOND
  const POLL_WAIT := SECOND

  datatype Attachment = NotCreated | NotAttached(eni: NewEni, deleted: bool) | Attached(eni: NewEni)

  /** The requests that creating and attaching an ENI makes (`:46-99`). */
  function Requests(subnet: string, secondary: Option<int>, index: int, a: Attachment): seq<Call> {
    match a
    case NotCreated => [Create(subnet, secondary, Err)]
    case NotAttached(eni, deleted) =>
      [Create(subnet, secondary, Ok(eni)), Attach(eni.id, index, false), Delete(eni.id, deleted)]
    case Attached(eni) => [Create(subnet, secondary, Ok(eni)), Attach(eni.id, index, true)]
  }

  method CreateAndAttach(ec2: Ec2, index: int, subnet: string, limit: int, batchSize: int) returns (a: Attachment)
    modifies ec2
    ensures ec2.calls == old(ec2.calls) + Requests(subnet, SecondaryCount(limit, batchSize), index, a)
  {
    var batch := batchSize;
    if batch == 0 || batch > limit { batch := limit; }
    batch := batch - 1;
    var secondary := None;
    if batch > 0 { secondary := Some(batch); }
    var made := ec2.CreateNetworkInterface(subnet, secondary);
    if made.Err? { return NotCreated; }
    var ok := ec2.AttachNetworkInterface(made.value.id, index);
    if !ok {
      var deleted := ec2.DeleteNetworkInterface(made.value.id);
      return NotAttached(made.value, deleted);
    }
    return Attached(made.value);
  }

  /** A failed attempt to attach leaves no new ENI standing, unless its deletion failed too. */
  lemma RollbackLeavesNothing(calls: seq<Call>, subnet: string, secondary: Option<int>, index: int, a: Attachment, eni: string)
    ensures
      var after := calls + Requests(subnet, secondary, index, a);
      Standing(after, eni) <==>
        if !a.NotCreated? && a.eni.id == eni then a.Attached? || !a.deleted else Standing(calls, eni)
  {
    var rs := Requests(subnet, secondary, index, a);
    var one := calls + [rs[0]];
    StandingNext(calls, rs[0], eni);
    if !a.NotCreated? {
      var two := one + [rs[1]];
      StandingNext(one, rs[1], eni);
      if a.NotAttached? {
        StandingNext(two, rs[2], eni);
        assert calls + rs == two + [rs[2]];
      } else {
        assert calls + rs == two;
      }
    } else {
      assert calls + rs == one;
    }
  }

  /** Stamps the addresses of a new ENI with the epoch, whether or not the writes succeed (`:129-135`). */
  method StampAtEpoch(registry: Registry, ips: seq<IP>)
    modifies registry, registry.env`log
    ensures registry.clock == old(registry.clock)
    ensures Traffic(old(registry.env.log), registry.env.log)
    ensures old(registry.file) != Missing ==>
      registry.file != Missing && Unasked(old(registry.env.log), registry.env.log)
    ensures
      old(registry.file) != Missing && Whole(Decode(old(registry.file))) && Smooth(old(registry.env.log), registry.env.log) ==>
      var m, m' := Decode(old(registry.file)), Decode(registry.file);
      && Whole(m')
      && (forall x: IP :: if x in ips then x in m' && m'[x] == EPOCH else Untouched(m, m', x))
  {
    ghost var m, known := Decode(registry.file), registry.file != Missing && Whole(Decode(registry.file));
    ghost var log := registry.env.log;
    for i := 0 to |ips|
      invariant registry.clock == old(registry.clock)
      invariant Traffic(log, registry.env.log)
      invariant old(registry.file) != Missing ==> registry.file != Missing && Unasked(log, registry.env.log)
      invariant known && Smooth(log, registry.env.log) ==>
        && Whole(Decode(registry.file))
        && (forall x: IP ::
              if x in ips[..i] then x in Decode(registry.file) && Decode(registry.file)[x] == EPOCH
              else Untouched(m, Decode(registry.file), x))
    {
      ghost var before, smooth := registry.file, Smooth(log, registry.env.log);
      var ok, io, base := registry.TrackIPAtEpoch(ips[i]);
      if known && smooth && ok { SaveEffect(before, ips[i], Some(EPOCH)); }
      assert ips[..i + 1] == ips[..i] + [ips[i]];
    }
    assert ips[..|ips|] == ips;
  }

  /** No answer among the answers shows an interface with this MAC address. */
  ghost predicate NeverShown(looks: seq<Answer>, mac: string) {
    forall i, x | 0 <= i < |looks| && looks[i].Interfaces? && looks[i].intfs.Ok? && x in looks[i].intfs.value ::
      x.mac != mac
  }

  ghost predicate AllListings(looks: seq<Answer>) {
    forall i | 0 <= i < |looks| :: looks[i].Interfaces?
  }

  /** The first interface with this MAC address in one listing (`:127-141`). */
  method FindByMac(intfs: seq<Interface>, mac: string) returns (r: Option<Interface>)
    ensures r.Some? ==> r.value in intfs && r.value.mac == mac
    ensures r.None? ==> forall x | x in intfs :: x.mac != mac
  {
    for i := 0 to |intfs|
      invariant forall j | 0 <= j < i :: intfs[j].mac != mac
    {
      if intfs[i].mac == mac { return Some(intfs[i]); }
    }
    return None;
  }

  const MAX_READS := 31

  /**
   * Lists the interfaces until one shows the MAC address or the settle time is over (`:118-143`);
   * metadata may fail while an interface comes up, which only means another read.
   */
  method AwaitInterface(registry: Registry, mac: string) returns (r: Option<Interface>, ghost looks: seq<Answer>)
    modifies registry`clock, registry.env`log
    ensures old(registry.clock) <= registry.clock
    ensures registry.env.log == old(registry.env.log) + looks && AllListings(looks) && 0 < |looks| <= MAX_READS
    ensures r.None? ==> NeverShown(looks, mac) && SETTLE_TIME < registry.clock - old(registry.clock)
    ensures r.Some? ==>
      && r.value.mac == mac && NeverShown(looks[..|looks| - 1], mac)
      && looks[|looks| - 1].intfs.Ok? && r.value in looks[|looks| - 1].intfs.value
  {
    r, looks := None, [];
    var start := registry.Now();
    var now := start;
    while now - start <= SETTLE_TIME
      invariant old(registry.clock) <= start <= now <= registry.clock
      invariant |looks| * POLL_WAIT <= now - start && (looks == [] || (|looks| - 1) * POLL_WAIT <= SETTLE_TIME)
      invariant looks == [] ==> now == start
      invariant r.None?
      invariant registry.env.log == old(registry.env.log) + looks && AllListings(looks) && NeverShown(looks, mac)
      decreases SETTLE_TIME - (now - start)
    {
      var interfaces := registry.env.GetInterfaces();
      ghost var before := looks;
      looks := looks + [Interfaces(interfaces)];
      assert registry.env.log == old(registry.env.log) + looks && looks[..|looks| - 1] == before;
      if interfaces.Ok? {
        r := FindByMac(interfaces.value, mac);
        if r.Some? { return; }
      }
      registry.Sleep(POLL_WAIT);
      now := registry.Now();
    }
  }

  /** How far the creation of an interface got, and with which answers. */
  datatype Attempt =
    | WithoutClient
    | Tried(doc: Option<string>, name: Option<string>, limits: Limits, attachment: Attachment, looks: seq<Answer>)

  /** The answers that an attempt consulted before it stamps the new addresses. */
  function Preliminaries(t: Attempt): seq<Answer> {
    match t
    case WithoutClient => [Did(MakeClient, false)]
    case Tried(doc, name, limits, _, looks) =>
      [Did(MakeClient, true), InstanceType(doc), InstanceType(name), LimitsAre(limits)] + looks
  }

  function AttemptRequests(t: Attempt, subnet: string, batchSize: int, index: int): seq<Call> {
    if t.Tried? then Requests(subnet, SecondaryCount(t.limits.ipv4, batchSize), index, t.attachment) else []
  }

  /** What the looks showed decides whether an attached interface is returned. */
  ghost predicate Outcome(t: Attempt, r: Result<Interface>) {
    if !t.Tried? || !t.attachment.Attached? then
      r.Err? && (t.Tried? ==> t.looks == [])
    else
      var looks, mac := t.looks, t.attachment.eni.mac;
      && AllListings(looks) && 0 < |looks| <= MAX_READS
      && (r.Err? ==> NeverShown(looks, mac))
      && (r.Ok? ==>
            && r.value.mac == mac && NeverShown(looks[..|looks| - 1], mac)
            && looks[|looks| - 1].intfs.Ok? && r.value in looks[|looks| - 1].intfs.value)
  }

  /** The attempt up to the attachment (`:39-99`). */
  method TryAttach(env: Env, ec2: Ec2, index: int, subnet: string, batchSize: int)
    returns (a: Option<Attachment>, ghost t: Attempt)
    requires env.Valid()
    modifies env`log, env`identity, env.limitsCache, ec2
    ensures env.Valid()
    ensures env.log == old(env.log) + Preliminaries(t) && (t.Tried? ==> t.looks == [])
    ensures ec2.calls == old(ec2.calls) + AttemptRequests(t, subnet, batchSize, index)
    ensures if t.Tried? && t.attachment.Attached? then a == Some(t.attachment) else a.None?
  {
    a, t := None, WithoutClient;
    var client := env.NewEC2();
    if !client { return; }
    var doc, err := env.GetIDDoc();
    if err {
      assert false;
      return;
    }
    var limits, _, name, _ := env.ENILimits();
    var attachment := CreateAndAttach(ec2, index, subnet, limits.ipv4, batchSize);
    t := Tried(doc, name, limits, attachment, []);
    if attachment.Attached? { a := Some(attachment); }
  }

  /**
   * `NewInterfaceOnSubnetAtIndex` (`:38-146`).  An interface is returned only if it was attached and
   * a metadata answer shows it under its MAC address; the settle time bounds the number of reads.
   */
  method NewInterfaceOnSubnetAtIndex(registry: Registry, ec2: Ec2, index: int, subnet: Subnet, batchSize: int)
    returns (r: Result<Interface>, ghost t: Attempt)
    requires registry.env.Valid()
    modifies registry, registry.env`log, registry.env`identity, registry.env.limitsCache, ec2
    ensures registry.env.Valid() && old(registry.clock) <= registry.clock
    ensures Traffic(old(registry.env.log) + Preliminaries(t), registry.env.log)
    ensures ec2.calls == old(ec2.calls) + AttemptRequests(t, subnet.id, batchSize, index)
    ensures Outcome(t, r)
    ensures r.Err? ==>
      registry.env.log == old(registry.env.log) + Preliminaries(t) && registry.file == old(registry.file)
    ensures old(registry.file) != Missing ==>
      && registry.file != Missing
      && (r.Ok? && Whole(Decode(old(registry.file)))
          && Smooth(old(registry.env.log) + Preliminaries(t), registry.env.log) ==>
            forall x: IP ::
              if x in t.attachment.eni.ips then x in Decode(registry.file) && Decode(registry.file)[x] == EPOCH
              else Untouched(Decode(old(registry.file)), Decode(registry.file), x))
  {
    r := Err;
    var a;
    a, t := TryAttach(registry.env, ec2, index, subnet.id, batchSize);
    if a.None? { return; }
    ghost var begun := t;
    var found;
    ghost var looks;
    found, looks := AwaitInterface(registry, a.value.eni.mac);
    t := Tried(t.doc, t.name, t.limits, a.value, looks);
    MoreLooks(old(registry.env.log), begun, t, looks);
    assert registry.env.log == old(registry.env.log) + Preliminaries(t);
    if found.Some? {
      StampAtEpoch(registry, a.value.eni.ips);
      r := Ok(found.value);
    }
  }

  lemma MoreLooks(log: seq<Answer>, t: Attempt, t': Attempt, looks: seq<Answer>)
    requires t.Tried? && t.looks == [] && t' == Tried(t.doc, t.name, t.limits, t.attachment, looks)
    ensures log + Preliminaries(t) + looks == log + Preliminaries(t')
  {
    assert Preliminaries(t) + looks == Preliminaries(t');
  }

  /** Why no interface was requested, or where it was. */
  datatype Creation =
    | Unanswered
    | NoRoom(existing: seq<Interface>, name: Option<string>, limits: Limits, subnets: seq<Subnet>)
    | NoSubnet(existing: seq<Interface>, name: Option<string>, limits: Limits, subnets: seq<Subnet>)
    | Chosen(existing: seq<Interface>, name: Option<string>, limits: Limits, subnets: seq<Subnet>,
             subnet: Subnet, t: Attempt)

  /** The answers that the choice was made from. */
  function ChosenFrom(why: Creation): seq<Answer>
    requires !why.Unanswered?
  {
    [Subnets(Ok(why.subnets)), Interfaces(Ok(why.existing)), InstanceType(why.name), LimitsAre(why.limits)]
  }

  function CreationRequests(why: Creation, batchSize: int): seq<Call> {
    if why.Chosen? then AttemptRequests(why.t, why.subnet.id, batchSize, |why.existing|) else []
  }

  /** A subnet is chosen if and only if there is an adapter to spare and a subnet with the tags. */
  ghost predicate Justified(why: Creation, required: map<string, string>) {
    match why
    case Unanswered => true
    case NoRoom(existing, _, limits, _) => limits.adapters <= |existing|
    case NoSubnet(existing, _, limits, subnets) =>
      |existing| < limits.adapters && forall s | s in subnets :: !Matches(s, required)
    case Chosen(existing, _, limits, subnets, subnet, _) =>
      && |existing| < limits.adapters && subnet in subnets && Matches(subnet, required)
      && (forall s | s in subnets && Matches(s, required) :: s.available <= subnet.available)
  }

  /**
   * `NewInterface` (`:169-212`).  With room for one more adapter, an ENI is requested in a subnet
   * that carries the required tags and has the most available addresses of those that do; its device
   * index is the number of existing interfaces.
   */
  method NewInterface(registry: Registry, ec2: Ec2, required: map<string, string>, batchSize: int)
    returns (r: Result<Interface>, ghost why: Creation)
    requires registry.env.Valid()
    modifies registry, registry.env`log, registry.env`identity, registry.env.limitsCache, registry.env.subnetsCache, ec2
    ensures registry.env.Valid() && old(registry.clock) <= registry.clock
    ensures Justified(why, required)
    ensures why.Unanswered? ==>
      || registry.env.log == old(registry.env.log) + [Subnets(Err)]
      || (exists subnets :: registry.env.log == old(registry.env.log) + [Subnets(Ok(subnets)), Interfaces(Err)])
    ensures why.NoRoom? || why.NoSubnet? ==> registry.env.log == old(registry.env.log) + ChosenFrom(why)
    ensures why.Chosen? ==>
      && Traffic(old(registry.env.log) + ChosenFrom(why) + Preliminaries(why.t), registry.env.log)
      && Outcome(why.t, r)
    ensures !why.Chosen? ==> r.Err?
    ensures ec2.calls == old(ec2.calls) + CreationRequests(why, batchSize)
    ensures old(registry.file) != Missing ==> registry.file != Missing
    ensures r.Err? ==> registry.file == old(registry.file)
  {
    r, why := Err, Creation.Unanswered;
    var subnets := registry.env.GetSubnetsForInstance();
    if subnets.Err? { return; }
    var existing := registry.env.GetInterfaces();
    assert registry.env.log == old(registry.env.log) + [Subnets(subnets), Interfaces(existing)];
    if existing.Err? { return; }
    var limits, _, name, _ := registry.env.ENILimits();
    why := NoRoom(existing.value, name, limits, subnets.value);
    assert registry.env.log == old(registry.env.log) + ChosenFrom(why);
    if |existing.value| >= limits.adapters { return; }
    var chosen := ChooseSubnet(subnets.value, required);
    why := NoSubnet(existing.value, name, limits, subnets.value);
    if chosen.None? { return; }
    ghost var t;
    r, t := NewInterfaceOnSubnetAtIndex(registry, ec2, |existing.value|, chosen.value, batchSize);
    why := Chosen(existing.value, name, limits, subnets.value, chosen.value, t);
  }

  /**
   * What a creation asks for, request by request: an ENI in the chosen subnet with as many addresses
   * as `NewEniFits` says, its attachment as the next device, and its deletion if it was not attached.
   */
  lemma CreationAsks(why: Creation, batchSize: int, c: Call)
    requires c in CreationRequests(why, batchSize)
    ensures why.Chosen? && why.t.Tried? && (c.Create? || c.Attach? || c.Delete?)
    ensures c.Create? ==>
      var limit, count := why.t.limits.ipv4, 1 + if c.secondary.Some? then c.secondary.value else 0;
      && c.subnet == why.subnet.id
      && (c.secondary.Some? ==> 0 < c.secondary.value)
      && (1 <= limit && (batchSize == 0 || limit < batchSize) ==> count == limit)
      && (1 <= batchSize <= limit ==> count == batchSize)
      && (c.made.Ok? <==> !why.t.attachment.NotCreated?)
    ensures c.Attach? ==>
      && !why.t.attachment.NotCreated? && c.eni == why.t.attachment.eni.id
      && c.index == |why.existing| && (c.ok <==> why.t.attachment.Attached?)
    ensures c.Delete? ==> why.t.attachment.NotAttached? && c.eni == why.t.attachment.eni.id
  {
    NewEniFits(why.t.limits.ipv4, batchSize);
    match why.t.attachment
    case NotCreated =>
    case NotAttached(_, _) =>
    case Attached(_) =>
  }

  // ----- Removing -----

  const DETACH_ATTEMPTS := 20

  lemma DescribesNext(calls: seq<Call>, call: Call)
    ensures Describes(calls + [call]) == Describes(calls) + if call.Describe? then 1 else 0
  {
    assert (calls + [call])[..|calls|] == calls;
  }

  /**
   * `waitUtilInterfaceDetaches` (`:275-298`): asks until the interface is available, an answer is an
   * error, or the attempts are used up.  `waited` are the requests made.
   */
  method WaitUntilInterfaceDetaches(ec2: Ec2, eni: string) returns (ok: bool, ghost waited: seq<Call>)
    modifies ec2
    ensures ec2.calls == old(ec2.calls) + waited
    ensures forall c | c in waited :: c.Describe? && c.eni == eni
    ensures 1 <= |waited| <= DETACH_ATTEMPTS + 2
    ensures ok ==> waited[|waited| - 1] == Describe(eni, Ok("available"))
    ensures forall i | 0 <= i < |waited| - 1 :: waited[i].status.Ok? && waited[i].status.value != "available"
    ensures !ok ==> waited[|waited| - 1].status.Err? || |waited| == DETACH_ATTEMPTS + 2
  {
    var status := ec2.DescribeNetworkInterface(eni);
    waited := [Describe(eni, status)];
    if status.Err? { return false, waited; }
    var attempt := 0;
    while status.value != "available"
      invariant status.Ok? && 0 <= attempt <= DETACH_ATTEMPTS
      invariant ec2.calls == old(ec2.calls) + waited && |waited| == attempt + 1
      invariant forall c | c in waited :: c.Describe? && c.eni == eni
      invariant waited[attempt] == Describe(eni, status)
      invariant forall i | 0 <= i < attempt :: waited[i].status.Ok? && waited[i].status.value != "available"
      decreases DETACH_ATTEMPTS - attempt
    {
      status := ec2.DescribeNetworkInterface(eni);
      waited := waited + [Describe(eni, status)];
      if status.Err? { return false, waited; }
      if attempt == DETACH_ATTEMPTS { return false, waited; }
      attempt := attempt + 1;
    }
    ok := true;
  }

  /** What removing one interface requests: it is deleted only after it was detached and available. */
  ghost predicate Removal(calls: seq<Call>, eni: string) {
    && (forall c | c in calls :: (c.Describe? || c.Detach? || c.Delete?) && c.eni == eni)
    && DeletesParted(calls)
    && Describes(calls) <= DETACH_ATTEMPTS + 3
  }

  /** A removal ends before the deletion succeeded only for one of these reasons. */
  ghost predicate GaveUp(calls: seq<Call>) {
    calls != [] &&
    match calls[|calls| - 1]
    case Describe(_, status) => status.Err? || Describes(calls) == DETACH_ATTEMPTS + 3
    case Detach(_, ok) => !ok
    case Delete(_, ok) => !ok
    case _ => false
  }

  /** The interfaces deleted by these requests, in order. */
  function Removed(calls: seq<Call>): seq<string> {
    if calls == [] then []
    else
      var last := calls[|calls| - 1];
      Removed(calls[..|calls| - 1]) + if last.Delete? && last.ok then [last.eni] else []
  }

  lemma {:induction false} RemovedConcat(calls: seq<Call>, more: seq<Call>)
    ensures Removed(calls + more) == Removed(calls) + Removed(more)
    decreases |more|
  {
    if more == [] {
      assert calls + more == calls;
    } else {
      var front := more[..|more| - 1];
      RemovedConcat(calls, front);
      assert (calls + more)[..|calls + more| - 1] == calls + front;
    }
  }

  lemma {:induction false} NothingRemoved(calls: seq<Call>)
    requires forall c | c in calls :: !c.Delete?
    ensures Removed(calls) == []
    decreases |calls|
  {
    if calls != [] { NothingRemoved(calls[..|calls| - 1]); }
  }

  lemma {:induction false} DescribesCounted(calls: seq<Call>, more: seq<Call>)
    requires forall c | c in more :: c.Describe?
    ensures Describes(calls + more) == Describes(calls) + |more|
    decreases |more|
  {
    if more == [] {
      assert calls + more == calls;
    } else {
      var front, last := more[..|more| - 1], more[|more| - 1];
      assert calls + more == (calls + front) + [last];
      DescribesNext(calls + front, last);
      DescribesCounted(calls, front);
    }
  }

  /** The requests for one interface: it was deleted, or given up for a reason. */
  ghost predicate Taken(calls: seq<Call>, eni: string, ok: bool) {
    Removal(calls, eni) && if ok then Removed(calls) == [eni] else Removed(calls) == [] && GaveUp(calls)
  }

  /** The interface may be deleted. */
  ghost predicate Ready(calls: seq<Call>, eni: string) {
    Removal(calls, eni) && Removed(calls) == [] && Parted(calls, eni)
  }

  lemma WaitedRemoval(eni: string, status: Result<string>, waited: seq<Call>)
    requires forall c | c in waited :: c.Describe? && c.eni == eni
    requires 0 < |waited| <= DETACH_ATTEMPTS + 2
    ensures
      var made, last := [Describe(eni, status), Detach(eni, true)] + waited, waited[|waited| - 1];
      && (last == Describe(eni, Ok("available")) ==> Ready(made, eni))
      && (last.status.Err? || |waited| == DETACH_ATTEMPTS + 2 ==> Taken(made, eni, false))
  {
    var begun := [Describe(eni, status), Detach(eni, true)];
    var made := begun + waited;
    assert Describes(begun) == 1 by {
      assert begun[..1] == [] + [Describe(eni, status)];
      DescribesNext([], Describe(eni, status));
    }
    DescribesCounted(begun, waited);
    NothingRemoved(made);
    assert made[1] == Detach(eni, true) && made[|made| - 1] == waited[|waited| - 1];
  }

  lemma EarlyRemoval(eni: string, status: Result<string>)
    ensures status.Err? ==> Taken([Describe(eni, status)], eni, false)
    ensures Taken([Describe(eni, status), Detach(eni, false)], eni, false)
  {
    var one, two := [Describe(eni, status)], [Describe(eni, status), Detach(eni, false)];
    assert one == [] + [Describe(eni, status)] && two == one + [Detach(eni, false)];
    DescribesNext([], Describe(eni, status));
    DescribesNext(one, Detach(eni, false));
    NothingRemoved(one);
    NothingRemoved(two);
  }

  lemma DeletedRemoval(made: seq<Call>, eni: string, ok: bool)
    requires Ready(made, eni)
    ensures Taken(made + [Delete(eni, ok)], eni, ok)
  {
    var all := made + [Delete(eni, ok)];
    DescribesNext(made, Delete(eni, ok));
    assert all[..|made|] == made;
    forall n | 0 <= n < |all| && all[n].Delete? ensures Parted(all[..n], all[n].eni) {
      if n < |made| { assert all[..n] == made[..n]; }
    }
  }

  /** Describes, detaches and waits (`:227-245`). */
  method DetachAndWait(ec2: Ec2, eni: string) returns (ok: bool, ghost made: seq<Call>)
    modifies ec2
    ensures ec2.calls == old(ec2.calls) + made && if ok then Ready(made, eni) else Taken(made, eni, false)
  {
    var description := ec2.DescribeNetworkInterface(eni);
    EarlyRemoval(eni, description);
    if description.Err? { return false, [Describe(eni, description)]; }
    ok := ec2.DetachNetworkInterface(eni);
    made := [Describe(eni, description), Detach(eni, ok)];
    assert ec2.calls == old(ec2.calls) + made;
    if !ok { return; }
    ghost var waited;
    ok, waited := WaitUntilInterfaceDetaches(ec2, eni);
    WaitedRemoval(eni, description, waited);
    assert ec2.calls == old(ec2.calls) + (made + waited);
    made := made + waited;
  }

  /** The loop body of `RemoveInterface` (`:223-256`). */
  method RemoveOne(ec2: Ec2, eni: string) returns (ok: bool, ghost made: seq<Call>)
    modifies ec2
    ensures ec2.calls == old(ec2.calls) + made && Taken(made, eni, ok)
  {
    ok, made := DetachAndWait(ec2, eni);
    if !ok { return; }
    ok := ec2.DeleteNetworkInterface(eni);
    DeletedRemoval(made, eni, ok);
    assert ec2.calls == old(ec2.calls) + (made + [Delete(eni, ok)]);
    made := made + [Delete(eni, ok)];
  }

  function Flatten(traces: seq<seq<Call>>): seq<Call> {
    if traces == [] then [] else Flatten(traces[..|traces| - 1]) + traces[|traces| - 1]
  }

  /** The requests for each interface that was reached: removed, or given up as the last of them. */
  ghost predicate Removals(traces: seq<seq<Call>>, ids: seq<string>, removed: nat)
    decreases |traces|
  {
    if traces == [] then removed == 0
    else
      var n := |traces| - 1;
      && n < |ids| && n <= removed <= n + 1
      && Taken(traces[n], ids[n], removed == n + 1)
      && Removals(traces[..n], ids, n)
  }

  lemma RemovalsNext(traces: seq<seq<Call>>, ids: seq<string>, made: seq<Call>, ok: bool)
    requires |traces| < |ids| && Removals(traces, ids, |traces|) && Taken(made, ids[|traces|], ok)
    ensures Removals(traces + [made], ids, |traces| + if ok then 1 else 0)
    ensures Flatten(traces + [made]) == Flatten(traces) + made
  {
    assert (traces + [made])[..|traces|] == traces;
  }

  /**
   * `RemoveInterface` (`:217-259`).  Without a client nothing is requested.  Otherwise the interfaces
   * are taken in turn up to the first that had to be given up, if there is one.
   */
  method RemoveInterface(env: Env, ec2: Ec2, ids: seq<string>)
    returns (ok: bool, ghost removed: nat, ghost traces: seq<seq<Call>>)
    modifies env`log, env`identity, ec2
    ensures ec2.calls == old(ec2.calls) + Flatten(traces)
    ensures Removals(traces, ids, removed)
    ensures ok ==> removed == |traces| == |ids|
    ensures !ok ==> |traces| == removed + 1 || (traces == [] && env.log == old(env.log) + [Did(MakeClient, false)])
  {
    removed, traces := 0, [];
    var client := env.NewEC2();
    if !client { return false, removed, traces; }
    for i := 0 to |ids|
      invariant removed == i == |traces|
      invariant ec2.calls == old(ec2.calls) + Flatten(traces)
      invariant Removals(traces, ids, removed)
    {
      ghost var made;
      ok, made := RemoveOne(ec2, ids[i]);
      RemovalsNext(traces, ids, made, ok);
      assert ec2.calls == old(ec2.calls) + (Flatten(traces) + made);
      traces := traces + [made];
      if !ok { return; }
      removed := removed + 1;
    }
    ok := true;
  }

  function RemovedBy(traces: seq<seq<Call>>): seq<string> {
    if traces == [] then [] else RemovedBy(traces[..|traces| - 1]) + Removed(traces[|traces| - 1])
  }

  lemma {:induction false} RemovedFlatten(traces: seq<seq<Call>>)
    ensures Removed(Flatten(traces)) == RemovedBy(traces)
    decreases |traces|
  {
    if traces != [] {
      var n := |traces| - 1;
      RemovedFlatten(traces[..n]);
      RemovedConcat(Flatten(traces[..n]), traces[n]);
    }
  }

  lemma {:induction false} RemovedByPrefix(traces: seq<seq<Call>>, ids: seq<string>, removed: nat)
    requires Removals(traces, ids, removed)
    ensures removed <= |traces| <= |ids|
    ensures RemovedBy(traces) == ids[..removed]
    decreases |traces|
  {
    if traces != [] {
      var n := |traces| - 1;
      RemovedByPrefix(traces[..n], ids, n);
      assert removed == n + 1 ==> ids[..n + 1] == ids[..n] + [ids[n]];
    }
  }

  /** Whatever the list, exactly its first `removed` entries were deleted, in order. */
  lemma RemovalsInOrder(traces: seq<seq<Call>>, ids: seq<string>, removed: nat)
    requires Removals(traces, ids, removed)
    ensures removed <= |traces| <= |ids|
    ensures Removed(Flatten(traces)) == ids[..removed]
  {
    RemovedFlatten(traces);
    RemovedByPrefix(traces, ids, removed);
  }

  /** Whatever the list, no deletion was requested before that interface was detached and seen available. */
  lemma {:induction false} RemovalsParted(traces: seq<seq<Call>>, ids: seq<string>, removed: nat)
    requires Removals(traces, ids, removed)
    ensures DeletesParted(Flatten(traces))
    decreases |traces|
  {
    if traces != [] {
      var n := |traces| - 1;
      RemovalsParted(traces[..n], ids, n);
      AppendParted(Flatten(traces[..n]), traces[n]);
    }
  }

  /** No request mentions an interface that was not reached. */
  lemma {:induction false} LaterUntouched(traces: seq<seq<Call>>, ids: seq<string>, removed: nat)
    requires Removals(traces, ids, removed)
    ensures |traces| <= |ids|
    ensures forall c | c in Flatten(traces) :: (c.Describe? || c.Detach? || c.Delete?) && c.eni in ids[..|traces|]
    decreases |traces|
  {
    if traces != [] {
      var n := |traces| - 1;
      LaterUntouched(traces[..n], ids, n);
      assert ids[..n + 1] == ids[..n] + [ids[n]];
    }
  }

  lemma AppendParted(calls: seq<Call>, last: seq<Call>)
    requires DeletesParted(calls) && DeletesParted(last)
    ensures DeletesParted(calls + last)
  {
    var all := calls + last;
    forall k | 0 <= k < |all| && all[k].Delete? ensures Parted(all[..k], all[k].eni) {
      if k < |calls| {
        assert all[..k] == calls[..k];
      } else {
        assert all[..k] == calls + last[..k - |calls|];
        PartedLater(calls, last[..k - |calls|], last[k - |calls|].eni);
      }
    }
  }

  lemma PartedLater(earlier: seq<Call>, calls: seq<Call>, eni: string)
    requires Parted(calls, eni)
    ensures Parted(earlier + calls, eni)
  {
    var i, j :| 0 <= i < j < |calls| && calls[i] == Detach(eni, true) && calls[j] == Describe(eni, Ok("available"));
    var all := earlier + calls;
    assert all[|earlier| + i] == calls[i] && all[|earlier| + j] == calls[j];
  }
}
