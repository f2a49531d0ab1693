/**
 * What the code asks its surroundings: EC2 metadata, the addresses bound in namespaces, limits and
 * subnets.  The answers are arbitrary; `log` keeps all of them in the order in which they were given,
 * so that contracts can say what a result was computed from and in which order things were read.
 */
module Environment {
  import opened Wrap
  import opened JsonTime
  import opened RegistryFile
  import opened AwsCache

  /** `aws.Interface`, as far as addresses are concerned. */
  datatype Interface = Interface(id: string, mac: string, number: int, ipv4s: seq<IP>, subnetId: string)

  datatype Subnet = Subnet(id: string, available: int, tags: map<string, string>)

  datatype Limits = Limits(adapters: int, ipv4: int)

  const DEFAULT_LIMITS := Limits(4, 15)
  const DAY: int := 24 * 60 * 60 * SECOND

  /** Things that work or fail, and of which nothing else matters. */
  datatype Chore = MakeClient | PrepareHandOff | PrintResult

  /** How a registry operation can fail. */
  datatype Fault = Unreadable | Unwritable

  datatype Answer =
    | Interfaces(intfs: Result<seq<Interface>>)
    | OneInterface(mac: string, intf: Result<Interface>)
    | Bound(ips: Result<seq<IP>>)
    | Aged(threshold: Instant, aged: Result<seq<IP>>)
    | InstanceType(name: Option<string>)
    | LimitsAre(limits: Limits)
    | Subnets(subnets: Result<seq<Subnet>>)
    | Did(chore: Chore, ok: bool)
    | RegistryFailed(fault: Fault)

  /** Between the two logs there were only listings, as an absent registry file causes, and failures. */
  ghost predicate Traffic(before: seq<Answer>, after: seq<Answer>) {
    before <= after &&
    forall i | |before| <= i < |after| :: after[i].Interfaces? || after[i].Bound? || after[i].RegistryFailed?
  }

  /** Between the two logs nothing was asked. */
  ghost predicate Unasked(before: seq<Answer>, after: seq<Answer>) {
    before <= after && forall i | |before| <= i < |after| :: after[i].RegistryFailed?
  }

  /** Between the two logs no registry operation failed. */
  ghost predicate Smooth(before: seq<Answer>, after: seq<Answer>) {
    before <= after && forall i | |before| <= i < |after| :: !after[i].RegistryFailed?
  }

  /** The answer was given between the two logs. */
  ghost predicate Answered(before: seq<Answer>, after: seq<Answer>, a: Answer) {
    before <= after && exists i :: |before| <= i < |after| && after[i] == a
  }

  lemma Later(log: seq<Answer>, log1: seq<Answer>, log2: seq<Answer>, a: Answer)
    requires log <= log1 <= log2
    ensures Smooth(log, log2) ==> Smooth(log1, log2)
    ensures Answered(log1, log2, a) ==> Answered(log, log2, a)
  {
  }

  /** How often a single interface was looked up. */
  ghost function Polls(log: seq<Answer>): nat {
    if log == [] then 0 else Polls(log[..|log| - 1]) + if log[|log| - 1].OneInterface? then 1 else 0
  }

  lemma PollsNext(log: seq<Answer>, a: Answer)
    ensures Polls(log + [a]) == Polls(log) + if a.OneInterface? then 1 else 0
  {
    assert (log + [a])[..|log|] == log;
  }

  lemma {:induction false} TrafficCounts(before: seq<Answer>, after: seq<Answer>)
    requires Traffic(before, after)
    ensures Polls(after) == Polls(before)
    decreases |after|
  {
    if after != before {
      var front := after[..|after| - 1];
      assert before <= front;
      TrafficCounts(before, front);
    }
  }

  class Env {
    const limitsCache: Cache<Limits>
    const subnetsCache: Cache<seq<Subnet>>
    const expiration: int
    /**
     * What the one attempt of this process to read its identity document brought, if it was made: the
     * instance type, or nothing.  Neither the document nor an EC2 client is asked for again.
     */
    var identity: Option<Option<string>>
    ghost var log: seq<Answer>

    /** Limits are kept for a day and subnets for the configured time. */
    ghost predicate Valid()
      reads limitsCache, subnetsCache
    {
      && limitsCache.Valid() && subnetsCache.Valid() && limitsCache as object != subnetsCache as object
      && (forall f | f in limitsCache.history :: f.lifetime == DAY)
      && (forall f | f in subnetsCache.history :: f.lifetime == expiration)
    }

    constructor (expiration: int)
      ensures Valid() && fresh(limitsCache) && fresh(subnetsCache) && log == [] && identity == None
    {
      limitsCache := new Cache();
      subnetsCache := new Cache();
      this.expiration, identity, log := expiration, None, [];
    }

    /** `GetInterfaces`: all interfaces as metadata shows them. */
    method GetInterfaces() returns (r: Result<seq<Interface>>)
      modifies this`log
      ensures log == old(log) + [Interfaces(r)]
    {
      r := *;
      log := log + [Interfaces(r)];
    }

    /** `getInterface`: one interface as metadata shows it. */
    method GetInterface(mac: string) returns (r: Result<Interface>)
      modifies this`log
      ensures log == old(log) + [OneInterface(mac, r)]
    {
      r := *;
      log := log + [OneInterface(mac, r)];
    }

    /** `nl.GetIPs`: the addresses bound in any namespace. */
    method GetIPs() returns (r: Result<seq<IP>>)
      modifies this`log
      ensures log == old(log) + [Bound(r)]
    {
      r := *;
      log := log + [Bound(r)];
    }

    method Do(chore: Chore) returns (ok: bool)
      modifies this`log
      ensures log == old(log) + [Did(chore, ok)]
    {
      ok := *;
      log := log + [Did(chore, ok)];
    }

    /** `getIDDoc` (`aws/client.go:70-85`): reports an error only when the one attempt was made just now. */
    method GetIDDoc() returns (name: Option<string>, err: bool)
      modifies this`identity, this`log
      ensures identity == Some(name) && (old(identity).Some? ==> identity == old(identity))
      ensures err <==> old(identity).None? && name.None?
      ensures log == old(log) + [InstanceType(name)]
    {
      err := false;
      if identity.None? {
        var answer: Option<string> := *;
        identity := Some(answer);
        err := answer.None?;
      }
      name := identity.value;
      log := log + [InstanceType(name)];
    }

    /** `newEC2` (`aws/client.go:89-103`): there is a client exactly if the identity could be read. */
    method NewEC2() returns (ok: bool)
      modifies this`identity, this`log
      ensures identity.Some? && (ok <==> identity.value.Some?)
      ensures old(identity).Some? ==> identity == old(identity)
      ensures log == old(log) + [Did(MakeClient, ok)]
    {
      if identity.None? {
        var answer: Option<string> := *;
        identity := Some(answer);
      }
      ok := identity.value.Some?;
      log := log + [Did(MakeClient, ok)];
    }

    /** The registry file could not be read or written. */
    ghost method Fail(fault: Fault)
      modifies this`log
      ensures log == old(log) + [RegistryFailed(fault)] && !Smooth(old(log), log)
    {
      log := log + [RegistryFailed(fault)];
      assert log[|old(log)|].RegistryFailed?;
    }

    /**
     * `ENILimits` (`aws/limits.go:61-82`): the limits of the instance type, from its cache entry of at
     * most a day or from AWS, and otherwise the default limits.  These come with an error, unless the
     * identity could not be read by an earlier call.
     */
    method ENILimits() returns (limits: Limits, err: bool, ghost name: Option<string>, ghost source: Option<Fetch<Limits>>)
      requires Valid()
      modifies this`identity, this`log, limitsCache
      ensures Valid()
      ensures identity == Some(name) && (old(identity).Some? ==> identity == old(identity))
      ensures log == old(log) + [InstanceType(name), LimitsAre(limits)]
      ensures err ==> limits == DEFAULT_LIMITS && limitsCache.files == old(limitsCache.files)
      ensures name.None? ==>
        && limits == DEFAULT_LIMITS && (err <==> old(identity).None?)
        && limitsCache.files == old(limitsCache.files) && limitsCache.replies == old(limitsCache.replies)
      ensures name.Some? ==>
        var key := "eni_limits_for_" + name.value;
        if limitsCache.replies == old(limitsCache.replies) then
          && !err && source.Some? && source.value in limitsCache.history
          && source.value.key == key && source.value.value == limits
          && limitsCache.clock - source.value.stored <= DAY
        else
          limitsCache.replies == old(limitsCache.replies) + [Reply(key, if err then Err else Ok(limits))]
    {
      limits, source := DEFAULT_LIMITS, None;
      var instanceType;
      instanceType, err := GetIDDoc();
      name := instanceType;
      if instanceType.Some? {
        var r;
        r, source := limitsCache.Cached("eni_limits_for_" + instanceType.value, DAY);
        if r.Ok? { limits, err := r.value, false; } else { err := true; }
      }
      log := log + [LimitsAre(limits)];
    }

    /** `GetSubnetsForInstance` through its cache (`aws/subnets.go:42-52`). */
    method GetSubnetsForInstance() returns (r: Result<seq<Subnet>>)
      requires Valid()
      modifies this`log, subnetsCache
      ensures Valid()
      ensures log == old(log) + [Subnets(r)]
      ensures
        || subnetsCache.replies == old(subnetsCache.replies) + [Reply("subnets_for_instance", r)]
        || (exists f :: f in subnetsCache.history && f.key == "subnets_for_instance" && r == Ok(f.value)
              && subnetsCache.clock - f.stored <= expiration)
    {
      ghost var source;
      r, source := subnetsCache.Cached("subnets_for_instance", expiration);
      log := log + [Subnets(r)];
    }
  }
}
