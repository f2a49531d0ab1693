/**
 * `registry-gc` of `cmd/cni-ipvlan-vpc-k8s-tool/cni-ipvlan-vpc-k8s-tool.go`: releasing addresses that
 * stayed unused for long.
 */
module RegistryGc {
  import opened Wrap
  import opened JsonTime
  import opened RegistryFile
  import opened Environment
  import opened AwsRegistry
  import opened Ec2Api
  import opened AwsAllocate

  /** What became of a visited address. */
  datatype Fate = InUse | Released | ReleaseFailed

  /**
   * `Jitter` (`aws/registry.go:271-275`) never shortens a duration and lengthens it by less than the
   * given part.  The random number generator panics (`None`) when the range it is given is empty.
   */
  method Jitter(d: int, part: real) returns (r: Option<int>)
    ensures r.None? <==> d as real * part < 1.0
    ensures r.Some? ==> d <= r.value && r.value as real < d as real + d as real * part
  {
    var range := (d as real * part).Floor;
    if range < 1 { return None; }
    var jitter: int := *;
    if jitter < 0 || range <= jitter { jitter := 0; }
    return Some(d + jitter);
  }

  // ----- Accounting -----

  function CountReleased(fates: seq<Fate>): nat {
    if fates == [] then 0
    else CountReleased(fates[..|fates| - 1]) + if fates[|fates| - 1].Released? then 1 else 0
  }

  /** The addresses released, in order. */
  function ReleasedIps(ips: seq<IP>, fates: seq<Fate>): (r: seq<IP>)
    requires |fates| <= |ips|
    ensures |r| == CountReleased(fates)
    decreases |fates|
  {
    if fates == [] then []
    else
      var n := |fates| - 1;
      ReleasedIps(ips, fates[..n]) + if fates[n].Released? then [ips[n]] else []
  }

  /** The check at the end of an iteration, which an address in use skips, ends the loop. */
  predicate StopsAfter(maxReap: int, fates: seq<Fate>) {
    && fates != []
    && fates[|fates| - 1] != InUse
    && maxReap - CountReleased(fates) == 0
  }

  /** How far a collection that saw these fates got: it stopped there or visited everything. */
  ghost predicate Visits(maxReap: int, ips: seq<IP>, bound: seq<IP>, fates: seq<Fate>) {
    && |fates| <= |ips|
    && (forall i | 0 <= i < |fates| :: fates[i].InUse? <==> ips[i] in bound)
    && (forall n | 0 <= n < |fates| :: !StopsAfter(maxReap, fates[..n]))
    && (|fates| < |ips| ==> StopsAfter(maxReap, fates))
  }

  lemma {:induction false} StaysBelow(maxReap: int, fates: seq<Fate>)
    requires 0 < maxReap
    requires forall n | 0 <= n <= |fates| :: !StopsAfter(maxReap, fates[..n])
    ensures CountReleased(fates) < maxReap
    decreases |fates|
  {
    if fates != [] {
      var front := fates[..|fates| - 1];
      forall n | 0 <= n <= |front| ensures !StopsAfter(maxReap, front[..n]) {
        assert front[..n] == fates[..n];
      }
      StaysBelow(maxReap, front);
      assert fates[..|fates|] == fates;
    }
  }

  /** With a positive limit, at most that many addresses are released. */
  lemma AtMostMaxReap(maxReap: int, ips: seq<IP>, bound: seq<IP>, fates: seq<Fate>)
    requires 0 < maxReap && Visits(maxReap, ips, bound, fates)
    ensures CountReleased(fates) <= maxReap
    ensures |fates| < |ips| ==> CountReleased(fates) == maxReap
    ensures forall n | 0 <= n < |fates| :: CountReleased(fates[..n]) < maxReap
  {
    forall n | 0 <= n < |fates| ensures CountReleased(fates[..n]) < maxReap {
      forall k | 0 <= k <= n ensures !StopsAfter(maxReap, fates[..n][..k]) {
        assert fates[..n][..k] == fates[..k];
      }
      StaysBelow(maxReap, fates[..n]);
    }
    if fates != [] {
      var front := fates[..|fates| - 1];
      forall n | 0 <= n <= |front| ensures !StopsAfter(maxReap, front[..n]) {
        assert front[..n] == fates[..n];
      }
      StaysBelow(maxReap, front);
    }
  }

  /** With a negative limit, every aged address is visited. */
  lemma NegativeVisitsAll(maxReap: int, ips: seq<IP>, bound: seq<IP>, fates: seq<Fate>)
    requires maxReap < 0 && Visits(maxReap, ips, bound, fates)
    ensures |fates| == |ips|
  {
  }

  /**
   * A limit of zero is no limit: a failing release before the first success, and nothing else, ends
   * the collection, and when nothing is bound and no release fails, everything aged is released.
   */
  lemma ZeroIsNoLimit(ips: seq<IP>, bound: seq<IP>, fates: seq<Fate>)
    requires Visits(0, ips, bound, fates)
    ensures |fates| < |ips| ==> CountReleased(fates) == 0 && fates[|fates| - 1].ReleaseFailed?
    ensures forall n | 0 <= n < |fates| - 1 && fates[n].ReleaseFailed? :: 0 < CountReleased(fates[..n])
    ensures ReleaseFailed !in fates ==> |fates| == |ips|
    ensures Visits(0, ips, [], seq(|ips|, _ => Released))
  {
    forall n | 0 <= n < |fates| - 1 && fates[n].ReleaseFailed? ensures 0 < CountReleased(fates[..n]) {
      assert !StopsAfter(0, fates[..n + 1]);
      assert fates[..n + 1][..n] == fates[..n];
    }
    var all := seq(|ips|, _ => Released);
    forall n | 0 <= n < |all| ensures !StopsAfter(0, all[..n]) {
    }
  }

  // ----- The collection -----

  ghost predicate Gone(ips: seq<IP>, fates: seq<Fate>, x: IP)
    requires |fates| <= |ips|
  {
    exists i :: 0 <= i < |fates| && ips[i] == x && !fates[i].ReleaseFailed?
  }

  /** Addresses in use and released addresses left the registry; everything else is as it was. */
  ghost predicate Pruned(m: Entries, m': Entries, ips: seq<IP>, fates: seq<Fate>)
    requires |fates| <= |ips|
  {
    forall x: IP :: if Gone(ips, fates, x) then x !in m' else Untouched(m, m', x)
  }

  lemma PrunedNext(m: Entries, m1: Entries, m2: Entries, ips: seq<IP>, fates: seq<Fate>, fate: Fate)
    requires |fates| < |ips| && Pruned(m, m1, ips, fates)
    requires if fate.ReleaseFailed? then m2 == m1 else m2 == m1 - {ips[|fates|]}
    ensures Pruned(m, m2, ips, fates + [fate])
  {
    var n := |fates|;
    forall x: IP ensures if Gone(ips, fates + [fate], x) then x !in m2 else Untouched(m, m2, x) {
      assert Gone(ips, fates + [fate], x) <==> Gone(ips, fates, x) || (x == ips[n] && !fate.ReleaseFailed?) by {
        if Gone(ips, fates, x) {
          var i :| 0 <= i < n && ips[i] == x && !fates[i].ReleaseFailed?;
          assert (fates + [fate])[i] == fates[i];
        }
        assert (fates + [fate])[n] == fate;
      }
      assert if Gone(ips, fates, x) then x !in m1 else Untouched(m, m1, x);
    }
  }

  /** A visit takes one attempt to give the address back, unless it is in use. */
  ghost predicate OneVisit(
    ip: IP, fate: Fate, tries: seq<Try>, log: seq<Answer>, log': seq<Answer>, calls: seq<Call>, calls': seq<Call>)
  {
    log <= log' &&
    if fate.InUse? then tries == [] && calls' == calls
    else
      && |tries| == 1 && tries[0].ip == ip && (tries[0].ok <==> fate.Released?)
      && Possible(tries[0]) && tries[0].at == log && After(tries[0]) <= log'
      && calls' == calls + TryRequests(tries[0])
  }

  /** One visit (`:347-367`): an address in use is only forgotten, any other one is given back first. */
  method Visit(registry: Registry, ec2: Ec2, ip: IP, bound: seq<IP>) returns (fate: Fate, ghost tries: seq<Try>)
    requires registry.file != Missing
    modifies registry, registry.env`log, registry.env`identity, ec2
    ensures registry.file != Missing && registry.clock == old(registry.clock)
    ensures fate.InUse? <==> ip in bound
    ensures OneVisit(ip, fate, tries, old(registry.env.log), registry.env.log, old(ec2.calls), ec2.calls)
    ensures AsksHolders(old(registry.env.log), registry.env.log, old(ec2.calls), ec2.calls)
    ensures fate.ReleaseFailed? ==> registry.file == old(registry.file)
    ensures !fate.ReleaseFailed? && Smooth(old(registry.env.log), registry.env.log) && Whole(Decode(old(registry.file))) ==>
      Whole(Decode(registry.file)) && Decode(registry.file) == Decode(old(registry.file)) - {ip}
  {
    ghost var m := Decode(registry.file);
    fate, tries := InUse, [];
    if ip !in bound {
      var ok;
      ghost var t;
      ok, t := DeallocateIP(registry.env, ec2, ip);
      fate, tries := if ok then Released else ReleaseFailed, [t];
    }
    if !fate.ReleaseFailed? {
      ghost var log := registry.env.log;
      // whether this could be written does not decide the fate
      var _, _, _ := registry.ForgetIP(ip);
      Later(old(registry.env.log), log, registry.env.log, Bound(Err));
      AsksHoldersLater(old(registry.env.log), log, registry.env.log, old(ec2.calls), ec2.calls);
      if Whole(m) { FlooredWhole(m - {ip}); }
    }
  }

  /** A collection that has seen these fates and not stopped. */
  ghost predicate Continues(maxReap: int, ips: seq<IP>, bound: seq<IP>, fates: seq<Fate>) {
    && |fates| <= |ips|
    && (forall i | 0 <= i < |fates| :: fates[i].InUse? <==> ips[i] in bound)
    && (forall n | 0 <= n <= |fates| :: !StopsAfter(maxReap, fates[..n]))
  }

  /** The attempts that these fates stand for: each visited address that is not in use, and how it went. */
  function Tried(ips: seq<IP>, fates: seq<Fate>): seq<(IP, bool)>
    requires |fates| <= |ips|
    decreases |fates|
  {
    if fates == [] then []
    else
      var n := |fates| - 1;
      Tried(ips, fates[..n]) + if fates[n].InUse? then [] else [(ips[n], fates[n].Released?)]
  }

  function Outcomes(tries: seq<Try>): (r: seq<(IP, bool)>)
    ensures |r| == |tries|
  {
    if tries == [] then []
    else
      var last := tries[|tries| - 1];
      Outcomes(tries[..|tries| - 1]) + [(last.ip, last.ok)]
  }

  /** The attempts of a collection are those that the logs and the requests show, one for each such fate. */
  ghost predicate Accounted(
    tries: seq<Try>, ips: seq<IP>, fates: seq<Fate>,
    log: seq<Answer>, log': seq<Answer>, calls: seq<Call>, calls': seq<Call>)
    requires |fates| <= |ips|
  {
    Made(tries, log, log', calls, calls') && Outcomes(tries) == Tried(ips, fates)
  }

  lemma TriedNext(ips: seq<IP>, fates: seq<Fate>, fate: Fate)
    requires |fates| < |ips|
    ensures Tried(ips, fates + [fate]) == Tried(ips, fates) + if fate.InUse? then [] else [(ips[|fates|], fate.Released?)]
  {
    assert (fates + [fate])[..|fates|] == fates;
  }

  lemma OutcomesNext(tries: seq<Try>, t: Try)
    ensures Outcomes(tries + [t]) == Outcomes(tries) + [(t.ip, t.ok)]
  {
    assert (tries + [t])[..|tries|] == tries;
  }

  lemma AccountNext(
    ips: seq<IP>, fates: seq<Fate>, fate: Fate, tries: seq<Try>, more: seq<Try>,
    log: seq<Answer>, log1: seq<Answer>, log2: seq<Answer>, calls: seq<Call>, calls1: seq<Call>, calls2: seq<Call>)
    requires |fates| < |ips| && Accounted(tries, ips, fates, log, log1, calls, calls1)
    requires OneVisit(ips[|fates|], fate, more, log1, log2, calls1, calls2)
    ensures Accounted(tries + more, ips, fates + [fate], log, log2, calls, calls2)
  {
    TriedNext(ips, fates, fate);
    if fate.InUse? {
      assert tries + more == tries;
      MadeLater(tries, log, log1, log2, calls, calls1);
    } else {
      assert more == [more[0]];
      OutcomesNext(tries, more[0]);
      MadeNext(tries, more[0], log, log2, calls, calls1, calls2);
    }
  }

  lemma {:induction false} GrantedIsReleased(tries: seq<Try>, ips: seq<IP>, fates: seq<Fate>)
    requires |fates| <= |ips| && Outcomes(tries) == Tried(ips, fates)
    ensures Granted(tries) == ReleasedIps(ips, fates)
    decreases |fates|
  {
    if fates != [] {
      var n := |fates| - 1;
      if fates[n].InUse? {
        GrantedIsReleased(tries, ips, fates[..n]);
      } else {
        var k := |tries| - 1;
        assert Outcomes(tries)[k] == (ips[n], fates[n].Released?);
        assert Outcomes(tries)[..k] == Tried(ips, fates[..n]);
        GrantedIsReleased(tries[..k], ips, fates[..n]);
      }
    }
  }

  /** What a collection gave back: the released addresses, in order. */
  lemma GcTakesBack(
    tries: seq<Try>, ips: seq<IP>, fates: seq<Fate>,
    log: seq<Answer>, log': seq<Answer>, calls: seq<Call>, calls': seq<Call>)
    requires |fates| <= |ips| && Accounted(tries, ips, fates, log, log', calls, calls')
    ensures TakenBack(calls') == TakenBack(calls) + ReleasedIps(ips, fates)
  {
    GrantedIsTakenBack(tries, log, log', calls, calls');
    GrantedIsReleased(tries, ips, fates);
  }

  /** The attempt for the `i`-th visited address, if it was not in use. */
  ghost predicate HasTry(tries: seq<Try>, ip: IP, fate: Fate) {
    !fate.InUse? ==> exists t :: t in tries && t.ip == ip && (t.ok <==> fate.Released?)
  }

  /** Each visited address that was not in use has an attempt, which ended as its fate tells. */
  lemma {:induction false} EachIsTried(tries: seq<Try>, ips: seq<IP>, fates: seq<Fate>, i: nat)
    requires i < |fates| <= |ips| && Outcomes(tries) == Tried(ips, fates)
    ensures HasTry(tries, ips[i], fates[i])
    decreases |fates|
  {
    var n, k := |fates| - 1, |tries| - 1;
    if fates[n].InUse? {
      if i < n { EachIsTried(tries, ips, fates[..n], i); }
    } else {
      assert Outcomes(tries)[k] == (ips[n], fates[n].Released?);
      assert Outcomes(tries)[..k] == Tried(ips, fates[..n]);
      if i < n {
        EachIsTried(tries[..k], ips, fates[..n], i);
      } else {
        assert tries[k] in tries;
      }
    }
  }

  /** There are no other attempts. */
  lemma {:induction false} TriesAreFor(tries: seq<Try>, ips: seq<IP>, fates: seq<Fate>, t: Try)
    requires |fates| <= |ips| && Outcomes(tries) == Tried(ips, fates) && t in tries
    ensures exists i :: 0 <= i < |fates| && !fates[i].InUse? && t.ip == ips[i]
    decreases |fates|
  {
    var n, k := |fates| - 1, |tries| - 1;
    if !fates[n].InUse? {
      assert Outcomes(tries)[k] == (ips[n], fates[n].Released?);
      assert Outcomes(tries)[..k] == Tried(ips, fates[..n]);
    }
    if fates[n].InUse? || t in tries[..k] {
      TriesAreFor(if fates[n].InUse? then tries else tries[..k], ips, fates[..n], t);
      var i :| 0 <= i < n && !fates[..n][i].InUse? && t.ip == ips[i];
      assert !fates[i].InUse?;
    }
  }

  lemma ReleasedNext(fates: seq<Fate>, fate: Fate)
    ensures CountReleased(fates + [fate]) == CountReleased(fates) + if fate.Released? then 1 else 0
  {
    assert (fates + [fate])[..|fates|] == fates;
  }

  lemma VisitNext(maxReap: int, ips: seq<IP>, bound: seq<IP>, fates: seq<Fate>, fate: Fate)
    requires Continues(maxReap, ips, bound, fates)
    requires |fates| < |ips| && (fate.InUse? <==> ips[|fates|] in bound)
    ensures
      var next := fates + [fate];
      if StopsAfter(maxReap, next) then Visits(maxReap, ips, bound, next) else Continues(maxReap, ips, bound, next)
  {
    var next := fates + [fate];
    forall n | 0 <= n <= |fates| ensures !StopsAfter(maxReap, next[..n]) {
      assert next[..n] == fates[..n];
    }
    assert next[..|next|] == next;
  }

  /** If the file was written by this program and nothing failed, it is pruned by these fates. */
  ghost predicate PrunedIf(smooth: bool, m: Entries, file: File, ips: seq<IP>, fates: seq<Fate>)
    requires |fates| <= |ips|
  {
    Whole(m) && smooth ==> Whole(Decode(file)) && Pruned(m, Decode(file), ips, fates)
  }

  /** One visit, in a registry that was pruned of the earlier ones. */
  method VisitNextOne(
    registry: Registry, ec2: Ec2, ips: seq<IP>, bound: seq<IP>, i: nat,
    ghost m: Entries, ghost log: seq<Answer>, ghost fates: seq<Fate>)
    returns (fate: Fate, ghost tries: seq<Try>)
    requires i == |fates| < |ips| && registry.file != Missing && log <= registry.env.log
    requires PrunedIf(Smooth(log, registry.env.log), m, registry.file, ips, fates)
    modifies registry, registry.env`log, registry.env`identity, ec2
    ensures registry.file != Missing && registry.clock == old(registry.clock)
    ensures fate.InUse? <==> ips[i] in bound
    ensures OneVisit(ips[i], fate, tries, old(registry.env.log), registry.env.log, old(ec2.calls), ec2.calls)
    ensures PrunedIf(Smooth(log, registry.env.log), m, registry.file, ips, fates + [fate])
  {
    ghost var m1, log1 := Decode(registry.file), registry.env.log;
    fate, tries := Visit(registry, ec2, ips[i], bound);
    Later(log, log1, registry.env.log, Bound(Err));
    if Whole(m) && Smooth(log, registry.env.log) {
      assert Smooth(log, log1);
      PrunedNext(m, m1, Decode(registry.file), ips, fates, fate);
    }
  }

  /**
   * The loop over the aged addresses (`:346-372`).  For each visited address that is not in use there
   * is one attempt to give it back, and its fate tells how that went.
   */
  method Collect(registry: Registry, ec2: Ec2, ips: seq<IP>, bound: seq<IP>, maxReap: int)
    returns (ghost fates: seq<Fate>, ghost tries: seq<Try>)
    requires ips != [] ==> registry.file != Missing
    modifies registry, registry.env`log, registry.env`identity, ec2
    ensures registry.clock == old(registry.clock)
    ensures Visits(maxReap, ips, bound, fates)
    ensures Accounted(tries, ips, fates, old(registry.env.log), registry.env.log, old(ec2.calls), ec2.calls)
    ensures AsksHolders(old(registry.env.log), registry.env.log, old(ec2.calls), ec2.calls)
    ensures PrunedIf(Smooth(old(registry.env.log), registry.env.log), Decode(old(registry.file)), registry.file, ips, fates)
  {
    fates, tries := [], [];
    ghost var m, log, calls := Decode(registry.file), registry.env.log, ec2.calls;
    var left := maxReap;
    for i := 0 to |ips|
      invariant registry.clock == old(registry.clock)
      invariant ips != [] ==> registry.file != Missing
      invariant |fates| == i && left == maxReap - CountReleased(fates)
      invariant Continues(maxReap, ips, bound, fates)
      invariant Accounted(tries, ips, fates, log, registry.env.log, calls, ec2.calls)
      invariant log <= registry.env.log
      invariant PrunedIf(Smooth(log, registry.env.log), m, registry.file, ips, fates)
    {
      ghost var log1, calls1 := registry.env.log, ec2.calls;
      var fate;
      ghost var more;
      fate, more := VisitNextOne(registry, ec2, ips, bound, i, m, log, fates);
      VisitNext(maxReap, ips, bound, fates, fate);
      ReleasedNext(fates, fate);
      AccountNext(ips, fates, fate, tries, more, log, log1, registry.env.log, calls, calls1, ec2.calls);
      fates, tries := fates + [fate], tries + more;
      if fate.InUse? { continue; }
      if fate.Released? { left := left - 1; }
      // `VisitNext`: below zero this never stops the collection
      if left == 0 { break; }
    }
    MadeAsksHolders(tries, log, registry.env.log, calls, ec2.calls);
  }

  /** The jittered wait, the registry and then the bound addresses (`:329-344`). */
  method AgedThenBound(registry: Registry, wait: int)
    returns (aged: Result<seq<IP>>, bound: Result<seq<IP>>, ghost head: seq<Answer>, ghost threshold: Instant)
    modifies registry, registry.env`log
    ensures old(registry.clock) - wait <= threshold == registry.clock - wait
    ensures Traffic(old(registry.env.log), head)
    ensures registry.env.log ==
      if aged.Ok? then head + [Aged(threshold, aged)] + [Bound(bound)] else head + [Aged(threshold, aged)]
    ensures aged.Ok? && aged.value != [] ==> registry.file != Missing
    ensures old(registry.file) != Missing ==>
      && Unasked(old(registry.env.log), head) && registry.file == old(registry.file)
      && (aged.Ok? ==> forall x :: x in aged.value <==> AgedBefore(Decode(old(registry.file)), x, threshold))
  {
    bound := Err;
    var now := registry.Now();
    threshold := now - wait;
    aged := registry.TrackedBefore(now - wait);
    head := registry.env.log[..|registry.env.log| - 1];
    if aged.Ok? {
      assert aged.value != [] ==> AgedBefore(Decode(registry.file), aged.value[0], threshold);
      bound := registry.env.GetIPs();
    }
  }

  datatype Outcome = Finished | Failed | Panicked

  /** What a collection was told: the aged addresses and right after them the bound ones; `head` is the log before. */
  datatype Told = Told(head: seq<Answer>, threshold: Instant, aged: Result<seq<IP>>, bound: Result<seq<IP>>)

  /** The log of a collection up to its loop. */
  function Begun(t: Told): seq<Answer> {
    t.head + [Aged(t.threshold, t.aged)] + if t.aged.Ok? then [Bound(t.bound)] else []
  }

  predicate Complete(t: Told) {
    t.aged.Ok? && t.bound.Ok?
  }

  /** A collection with a given wait (`:331-374`). */
  method CollectAfter(registry: Registry, ec2: Ec2, wait: int, maxReap: int)
    returns (ok: bool, ghost t: Told, ghost fates: seq<Fate>, ghost tries: seq<Try>)
    modifies registry, registry.env`log, registry.env`identity, ec2
    ensures old(registry.clock) - wait <= t.threshold == registry.clock - wait
    ensures Traffic(old(registry.env.log), t.head) && (ok <==> Complete(t))
    ensures old(registry.file) != Missing ==>
      && Unasked(old(registry.env.log), t.head)
      && (t.aged.Ok? ==> forall x :: x in t.aged.value <==> AgedBefore(Decode(old(registry.file)), x, t.threshold))
    ensures !ok ==>
      && registry.env.log == Begun(t) && ec2.calls == old(ec2.calls)
      && (old(registry.file) != Missing ==> registry.file == old(registry.file))
    ensures ok ==>
      && Begun(t) <= registry.env.log
      && Visits(maxReap, t.aged.value, t.bound.value, fates)
      && Accounted(tries, t.aged.value, fates, Begun(t), registry.env.log, old(ec2.calls), ec2.calls)
      && AsksHolders(Begun(t), registry.env.log, old(ec2.calls), ec2.calls)
      && (old(registry.file) != Missing ==>
            PrunedIf(Smooth(Begun(t), registry.env.log), Decode(old(registry.file)), registry.file, t.aged.value, fates))
  {
    ok, fates, tries := false, [], [];
    var aged, bound;
    ghost var head, threshold;
    aged, bound, head, threshold := AgedThenBound(registry, wait);
    t := Told(head, threshold, aged, bound);
    assert registry.env.log == Begun(t);
    if aged.Err? || bound.Err? { return; }
    fates, tries := Collect(registry, ec2, aged.value, bound.value, maxReap);
    ok := true;
  }

  /**
   * `actionRegistryGc` (`:315-376`).  The registry is read first and the bound addresses second, so
   * an address that was bound in between is seen as in use.
   */
  method ActionRegistryGc(registry: Registry, ec2: Ec2, freeAfter: int, maxReap: int)
    returns (outcome: Outcome, ghost t: Told, ghost fates: seq<Fate>, ghost tries: seq<Try>)
    modifies registry, registry.env`log, registry.env`identity, ec2
    ensures freeAfter <= 0 ==> outcome == Failed
    ensures 0 < freeAfter ==> (outcome == Panicked <==> freeAfter as real * 0.15 < 1.0)
    ensures outcome == Panicked || freeAfter <= 0 ==>
      registry.env.log == old(registry.env.log) && ec2.calls == old(ec2.calls) && registry.file == old(registry.file)
    ensures outcome != Panicked && 0 < freeAfter ==>
      && (outcome == Finished <==> Complete(t))
      && t.threshold <= registry.clock - freeAfter
      && (old(registry.clock) - t.threshold) as real < freeAfter as real * 1.15
      && Traffic(old(registry.env.log), t.head)
      && (old(registry.file) != Missing ==>
            && Unasked(old(registry.env.log), t.head)
            && (t.aged.Ok? ==> forall x :: x in t.aged.value <==> AgedBefore(Decode(old(registry.file)), x, t.threshold)))
    ensures outcome == Failed && 0 < freeAfter ==>
      && registry.env.log == Begun(t) && ec2.calls == old(ec2.calls)
      && (old(registry.file) != Missing ==> registry.file == old(registry.file))
    ensures outcome == Finished ==>
      && Begun(t) <= registry.env.log
      && Visits(maxReap, t.aged.value, t.bound.value, fates)
      && Accounted(tries, t.aged.value, fates, Begun(t), registry.env.log, old(ec2.calls), ec2.calls)
      && AsksHolders(Begun(t), registry.env.log, old(ec2.calls), ec2.calls)
      && (old(registry.file) != Missing ==>
            PrunedIf(Smooth(Begun(t), registry.env.log), Decode(old(registry.file)), registry.file, t.aged.value, fates))
  {
    outcome, t, fates, tries := Failed, Told([], 0, Err, Err), [], [];
    if freeAfter <= 0 { return; }
    var jittered := Jitter(freeAfter, 0.15);
    if jittered.None? { return Panicked, t, fates, tries; }
    var ok;
    ok, t, fates, tries := CollectAfter(registry, ec2, jittered.value, maxReap);
    if ok { outcome := Finished; }
  }
}
