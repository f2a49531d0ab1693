/**
 * `aws/registry.go` and `aws/freeip.go`: the file-backed registry and the scan for free addresses.
 *
 * The two call each other: loading a registry that has no file scans for free addresses, and an
 * updating scan reads and writes the registry.  The `decreases` clauses show that this always ends.
 *
 * Metadata and the bound addresses are whatever the environment answers.  Ghost results name the
 * answers that a method used, and contracts find them in the log of `Environment`.
 */
module AwsRegistry {
  import opened Wrap
  import opened JsonTime
  import opened RegistryFile
  import opened Environment

  datatype AllocationResult = AllocationResult(ip: IP, intf: Interface)

  // ----- What a scan lists -----

  /** The first `k` addresses of an interface. */
  function Pairs(intf: Interface, k: nat): (r: seq<AllocationResult>)
    requires k <= |intf.ipv4s|
    ensures |r| == k
  {
    seq(k, i requires 0 <= i < k => AllocationResult(intf.ipv4s[i], intf))
  }

  /** All addresses of the interfaces numbered `index` or above, in metadata order. */
  function Listed(intfs: seq<Interface>, index: int): seq<AllocationResult> {
    if intfs == [] then []
    else
      var last := intfs[|intfs| - 1];
      Listed(intfs[..|intfs| - 1], index) + if last.number < index then [] else Pairs(last, |last.ipv4s|)
  }

  function Unbound(pairs: seq<AllocationResult>, bound: seq<IP>): seq<AllocationResult> {
    if pairs == [] then []
    else
      var last := pairs[|pairs| - 1];
      Unbound(pairs[..|pairs| - 1], bound) + if last.ip in bound then [] else [last]
  }

  /** The addresses to report as free. */
  function FreeOf(intfs: seq<Interface>, bound: seq<IP>, index: int): seq<AllocationResult> {
    Unbound(Listed(intfs, index), bound)
  }

  lemma {:induction false} ListedExactly(intfs: seq<Interface>, index: int, a: AllocationResult)
    ensures a in Listed(intfs, index) <==> a.intf in intfs && index <= a.intf.number && a.ip in a.intf.ipv4s
    decreases |intfs|
  {
    if intfs != [] {
      var front, last := intfs[..|intfs| - 1], intfs[|intfs| - 1];
      assert intfs == front + [last];
      ListedExactly(front, index, a);
      if a.intf == last && a.ip in last.ipv4s {
        var i :| 0 <= i < |last.ipv4s| && last.ipv4s[i] == a.ip;
        assert Pairs(last, |last.ipv4s|)[i] == a;
      }
    }
  }

  lemma {:induction false} UnboundExactly(pairs: seq<AllocationResult>, bound: seq<IP>, a: AllocationResult)
    ensures a in Unbound(pairs, bound) <==> a in pairs && a.ip !in bound
    decreases |pairs|
  {
    if pairs != [] {
      var front, last := pairs[..|pairs| - 1], pairs[|pairs| - 1];
      assert pairs == front + [last];
      UnboundExactly(front, bound, a);
    }
  }

  /** The scan reports exactly the unbound addresses of the managed interfaces. */
  lemma FreeExactly(intfs: seq<Interface>, bound: seq<IP>, index: int, a: AllocationResult)
    ensures a in FreeOf(intfs, bound, index) <==>
      a.intf in intfs && index <= a.intf.number && a.ip in a.intf.ipv4s && a.ip !in bound
  {
    ListedExactly(intfs, index, a);
    UnboundExactly(Listed(intfs, index), bound, a);
  }

  /** What a scan that stops part-way has found so far is free. */
  lemma PartFree(intfs: seq<Interface>, i: nat, k: nat, bound: seq<IP>, index: int)
    requires i < |intfs| && k <= |intfs[i].ipv4s| && index <= intfs[i].number
    ensures forall a | a in Unbound(Listed(intfs[..i], index) + Pairs(intfs[i], k), bound) ::
      a in FreeOf(intfs, bound, index)
  {
    var pairs := Listed(intfs[..i], index) + Pairs(intfs[i], k);
    forall a | a in Unbound(pairs, bound) ensures a in FreeOf(intfs, bound, index) {
      UnboundExactly(pairs, bound, a);
      ListedExactly(intfs[..i], index, a);
      FreeExactly(intfs, bound, index, a);
    }
  }

  datatype Place = Place(intf: nat, k: nat)

  /** In the order of the interfaces, and within one of them in the order of its addresses. */
  predicate Before(p: Place, q: Place) {
    p.intf < q.intf || (p.intf == q.intf && p.k < q.k)
  }

  ghost predicate Ordered(places: seq<Place>) {
    forall i, j | 0 <= i < j < |places| :: Before(places[i], places[j])
  }

  /** The address at a place in the listing, if it belongs to a managed interface. */
  predicate IsAt(intfs: seq<Interface>, index: int, p: Place) {
    p.intf < |intfs| && index <= intfs[p.intf].number && p.k < |intfs[p.intf].ipv4s|
  }

  predicate Stands(intfs: seq<Interface>, index: int, a: AllocationResult, p: Place) {
    IsAt(intfs, index, p) && a == AllocationResult(intfs[p.intf].ipv4s[p.k], intfs[p.intf])
  }

  /** These are the places of the pairs, one by one. */
  ghost predicate PlacesOf(intfs: seq<Interface>, index: int, pairs: seq<AllocationResult>, places: seq<Place>) {
    |places| == |pairs| && forall i | 0 <= i < |pairs| :: Stands(intfs, index, pairs[i], places[i])
  }

  function OwnPlaces(n: nat, count: nat): (r: seq<Place>)
    ensures |r| == count && forall k | 0 <= k < count :: r[k] == Place(n, k)
  {
    seq(count, k requires 0 <= k < count => Place(n, k))
  }

  lemma PlacesNext(intfs: seq<Interface>, index: int, pairs: seq<AllocationResult>, places: seq<Place>)
    requires intfs != [] && PlacesOf(intfs[..|intfs| - 1], index, pairs, places)
    ensures
      var last := intfs[|intfs| - 1];
      if last.number < index then PlacesOf(intfs, index, pairs, places)
      else PlacesOf(intfs, index, pairs + Pairs(last, |last.ipv4s|), places + OwnPlaces(|intfs| - 1, |last.ipv4s|))
  {
    var front := intfs[..|intfs| - 1];
    forall i | 0 <= i < |pairs| ensures Stands(intfs, index, pairs[i], places[i]) {
      assert Stands(front, index, pairs[i], places[i]);
    }
  }

  lemma OrderedNext(intfs: seq<Interface>, index: int, places: seq<Place>, n: nat, count: nat)
    requires n <= |intfs| && Ordered(places) && forall p | p in places :: IsAt(intfs[..n], index, p)
    ensures Ordered(places + OwnPlaces(n, count))
  {
    var all := places + OwnPlaces(n, count);
    forall i, j | 0 <= i < j < |all| ensures Before(all[i], all[j]) {
      if i < |places| <= j { assert places[i] in places; }
    }
  }

  /** These are all the places of the managed addresses. */
  ghost predicate AllPlaces(intfs: seq<Interface>, index: int, places: seq<Place>) {
    forall p :: p in places <==> IsAt(intfs, index, p)
  }

  lemma AllPlacesNext(intfs: seq<Interface>, index: int, places: seq<Place>)
    requires intfs != [] && AllPlaces(intfs[..|intfs| - 1], index, places)
    ensures
      var last := intfs[|intfs| - 1];
      AllPlaces(intfs, index, if last.number < index then places else places + OwnPlaces(|intfs| - 1, |last.ipv4s|))
  {
    var n, last := |intfs| - 1, intfs[|intfs| - 1];
    var own := OwnPlaces(n, |last.ipv4s|);
    forall p ensures IsAt(intfs, index, p) <==> p in places || (index <= last.number && p in own) {
      if p.intf == n && p.k < |last.ipv4s| { assert own[p.k] == p; }
      assert p in places <==> IsAt(intfs[..n], index, p);
    }
  }

  lemma {:induction false} ListedInOrder(intfs: seq<Interface>, index: int) returns (places: seq<Place>)
    ensures PlacesOf(intfs, index, Listed(intfs, index), places) && Ordered(places)
    ensures AllPlaces(intfs, index, places)
    decreases |intfs|
  {
    places := [];
    if intfs != [] {
      var n, last := |intfs| - 1, intfs[|intfs| - 1];
      var earlier := ListedInOrder(intfs[..n], index);
      PlacesNext(intfs, index, Listed(intfs[..n], index), earlier);
      OrderedNext(intfs, index, earlier, n, |last.ipv4s|);
      AllPlacesNext(intfs, index, earlier);
      places := if last.number < index then earlier else earlier + OwnPlaces(n, |last.ipv4s|);
    }
  }

  /** The pairs that are not bound, by their positions. */
  ghost predicate KeptAt(pairs: seq<AllocationResult>, bound: seq<IP>, free: seq<AllocationResult>, kept: seq<nat>) {
    && |kept| == |free|
    && (forall i | 0 <= i < |kept| :: kept[i] < |pairs| && pairs[kept[i]].ip !in bound && free[i] == pairs[kept[i]])
    && (forall i, j | 0 <= i < j < |kept| :: kept[i] < kept[j])
    && (forall k | 0 <= k < |pairs| && pairs[k].ip !in bound :: k in kept)
  }

  lemma KeptNext(
    pairs: seq<AllocationResult>, bound: seq<IP>, free: seq<AllocationResult>, kept: seq<nat>, next: AllocationResult)
    requires KeptAt(pairs, bound, free, kept)
    ensures
      if next.ip in bound then KeptAt(pairs + [next], bound, free, kept)
      else KeptAt(pairs + [next], bound, free + [next], kept + [|pairs|])
  {
    var all, kept' := pairs + [next], kept + [|pairs|];
    forall k | 0 <= k < |all| && all[k].ip !in bound ensures k in kept' && (k < |pairs| ==> k in kept) {
      if k < |pairs| { assert pairs[k].ip !in bound; } else { assert kept'[|kept|] == k; }
    }
  }

  function KeptOf(pairs: seq<AllocationResult>, bound: seq<IP>): seq<nat> {
    if pairs == [] then []
    else
      var n := |pairs| - 1;
      KeptOf(pairs[..n], bound) + if pairs[n].ip in bound then [] else [n]
  }

  lemma {:induction false} UnboundInOrder(pairs: seq<AllocationResult>, bound: seq<IP>)
    ensures KeptAt(pairs, bound, Unbound(pairs, bound), KeptOf(pairs, bound))
    decreases |pairs|
  {
    if pairs != [] {
      var n := |pairs| - 1;
      UnboundInOrder(pairs[..n], bound);
      KeptNext(pairs[..n], bound, Unbound(pairs[..n], bound), KeptOf(pairs[..n], bound), pairs[n]);
      assert pairs[..n] + [pairs[n]] == pairs;
      if pairs[n].ip in bound {
        assert Unbound(pairs, bound) == Unbound(pairs[..n], bound) && KeptOf(pairs, bound) == KeptOf(pairs[..n], bound);
      }
    }
  }

  /** The free list has every unbound address of the managed interfaces at its place in metadata, in that order. */
  lemma FreeInOrder(intfs: seq<Interface>, bound: seq<IP>, index: int) returns (places: seq<Place>)
    ensures PlacesOf(intfs, index, FreeOf(intfs, bound, index), places) && Ordered(places)
    ensures forall p | IsAt(intfs, index, p) && intfs[p.intf].ipv4s[p.k] !in bound :: p in places
  {
    var all := ListedInOrder(intfs, index);
    UnboundInOrder(Listed(intfs, index), bound);
    var kept := KeptOf(Listed(intfs, index), bound);
    places := seq(|kept|, i requires 0 <= i < |kept| => all[kept[i]]);
    forall i | 0 <= i < |kept| ensures Stands(intfs, index, FreeOf(intfs, bound, index)[i], places[i]) {
      assert Stands(intfs, index, Listed(intfs, index)[kept[i]], all[kept[i]]);
    }
    forall p | IsAt(intfs, index, p) && intfs[p.intf].ipv4s[p.k] !in bound ensures p in places {
      var k :| 0 <= k < |all| && all[k] == p;
      assert Stands(intfs, index, Listed(intfs, index)[k], all[k]);
      var i :| 0 <= i < |kept| && kept[i] == k;
      assert places[i] == p;
    }
  }

  // ----- What a scan does to the registry -----

  ghost predicate Lists(pairs: seq<AllocationResult>, x: IP) {
    exists i :: 0 <= i < |pairs| && pairs[i].ip == x
  }

  ghost predicate Untouched(m: Entries, m': Entries, x: IP) {
    (x in m' <==> x in m) && (x in m ==> m'[x] == m[x])
  }

  ghost predicate Settled(m: Entries, m': Entries, x: IP, isBound: bool, begin: Instant, end: Instant) {
    if isBound then x !in m'
    else x in m' && (if x in m then m'[x] == m[x] else begin - SECOND < m'[x] <= end)
  }

  /**
   * After the scan a listed address is registered exactly if it was unbound; old entries keep their
   * time, new ones are stamped with the time of the scan, and unlisted addresses are left alone.
   */
  ghost predicate Reconciled(
    m: Entries, m': Entries, pairs: seq<AllocationResult>, bound: seq<IP>, begin: Instant, end: Instant)
  {
    forall x: IP ::
      if Lists(pairs, x) then Settled(m, m', x, x in bound, begin, end) else Untouched(m, m', x)
  }

  /** The change that a scan makes for one address. */
  ghost predicate Scanned(m: Entries, m': Entries, ip: IP, isBound: bool, begin: Instant, end: Instant) {
    Settled(m, m', ip, isBound, begin, end) && forall x | x != ip :: Untouched(m, m', x)
  }

  lemma ReconciledNext(
    m: Entries, m1: Entries, m2: Entries, pairs: seq<AllocationResult>, next: AllocationResult,
    bound: seq<IP>, begin: Instant, middle: Instant, end: Instant)
    requires Reconciled(m, m1, pairs, bound, begin, middle) && begin <= middle <= end
    requires Scanned(m1, m2, next.ip, next.ip in bound, begin, end)
    ensures Reconciled(m, m2, pairs + [next], bound, begin, end)
  {
    forall x: IP
      ensures if Lists(pairs + [next], x) then Settled(m, m2, x, x in bound, begin, end) else Untouched(m, m2, x)
    {
      ListsNext(pairs, next, x);
      assert if Lists(pairs, x) then Settled(m, m1, x, x in bound, begin, middle) else Untouched(m, m1, x);
      assert x != next.ip ==> Untouched(m1, m2, x);
    }
  }

  lemma ListsNext(pairs: seq<AllocationResult>, next: AllocationResult, x: IP)
    ensures Lists(pairs + [next], x) <==> Lists(pairs, x) || x == next.ip
  {
    var all := pairs + [next];
    if Lists(pairs, x) {
      var i :| 0 <= i < |pairs| && pairs[i].ip == x;
      assert all[i].ip == x;
    }
    if x == next.ip { assert all[|pairs|].ip == x; }
  }

  // ----- The registry -----

  /** The loop of `TrackedBefore` (`aws/registry.go:221-232`). */
  method AgedEntries(m: Entries, t: Instant) returns (r: seq<IP>)
    ensures forall x :: x in r <==> AgedBefore(m, x, t)
    ensures forall i, j | 0 <= i < j < |r| :: r[i] != r[j]
  {
    r := [];
    var rest := m.Keys;
    while rest != {}
      invariant rest <= m.Keys
      invariant forall x :: x in r <==> AgedBefore(m, x, t) && x !in rest
      invariant forall i, j | 0 <= i < j < |r| :: r[i] != r[j]
      decreases rest
    {
      var x :| x in rest;
      if m[x] < t { r := r + [x]; }
      rest := rest - {x};
    }
  }

  /** The address set of a list of results. */
  function Ips(pairs: seq<AllocationResult>): (r: set<IP>) {
    set a | a in pairs :: a.ip
  }

  /** Some interface numbered 0 or above lists the address, and it is not bound. */
  ghost predicate Spare(seen: seq<Interface>, bound: seq<IP>, x: IP) {
    x !in bound && exists intf :: intf in seen && 0 <= intf.number && x in intf.ipv4s
  }

  lemma SpareIsFree(seen: seq<Interface>, bound: seq<IP>)
    ensures forall x :: x in Ips(FreeOf(seen, bound, 0)) <==> Spare(seen, bound, x)
  {
    forall x ensures x in Ips(FreeOf(seen, bound, 0)) <==> Spare(seen, bound, x) {
      if x in Ips(FreeOf(seen, bound, 0)) {
        var a :| a in FreeOf(seen, bound, 0) && a.ip == x;
        FreeExactly(seen, bound, 0, a);
      }
      if Spare(seen, bound, x) {
        var intf :| intf in seen && 0 <= intf.number && x in intf.ipv4s;
        FreeExactly(seen, bound, 0, AllocationResult(x, intf));
        assert AllocationResult(x, intf).ip in Ips(FreeOf(seen, bound, 0));
      }
    }
  }

  /** What an absent file counts for: the spare addresses that could be listed, at the epoch. */
  ghost predicate Seeded(log: seq<Answer>, log': seq<Answer>, base: Entries) {
    && (forall x | x in base :: base[x] == EPOCH)
    && (|| (base == map[] && log + [Interfaces(Err)] <= log')
        || (base == map[] && exists seen :: log + [Interfaces(Ok(seen)), Bound(Err)] <= log')
        || (exists seen, bound ::
              && log + [Interfaces(Ok(seen)), Bound(Ok(bound))] <= log'
              && forall x :: x in base <==> Spare(seen, bound, x)))
  }

  lemma SeededLater(log: seq<Answer>, log1: seq<Answer>, log2: seq<Answer>, base: Entries)
    requires Seeded(log, log1, base) && log1 <= log2
    ensures Seeded(log, log2, base)
  {
  }

  /** The answers that a scan got before it did anything else, and whether it got both. */
  ghost predicate Listings(
    before: seq<Answer>, after: seq<Answer>, listed: bool, seen: seq<Interface>, bound: seq<IP>)
  {
    if listed then before + [Interfaces(Ok(seen)), Bound(Ok(bound))] <= after
    else after == before + [Interfaces(Err)] || after == before + [Interfaces(Ok(seen)), Bound(Err)]
  }

  /**
   * The registry file and the system clock.  Every `Registry{}` value of the program names the same
   * file, so one object stands for all of them.
   */
  class Registry {
    const env: Env
    var file: File
    var clock: Instant

    constructor (env: Env, file: File)
      ensures this.env == env && this.file == file
    {
      this.env, this.file, clock := env, file, EPOCH;
    }

    method Now() returns (t: Instant)
      modifies this`clock
      ensures old(clock) <= clock && t == clock
    {
      var d: int := *;
      if 0 < d { clock := clock + d; }
      t := clock;
    }

    method Sleep(d: int)
      requires 0 <= d
      modifies this`clock
      ensures old(clock) + d <= clock
    {
      var extra: int := *;
      clock := clock + d + if 0 < extra then extra else 0;
    }

    /** Truncates the file and encodes into it (`:127-145`). */
    method Save(contents: Entries) returns (ghost io: Io, ok: bool)
      modifies this`file, env`log
      ensures ok <==> io.Committed?
      ensures env.log == if ok then old(env.log) else old(env.log) + [RegistryFailed(Unwritable)]
      ensures !ok ==> !Smooth(old(env.log), env.log)
      ensures file == match io case Skipped => old(file) case Torn => Garbled case Committed => Saved(contents)
    {
      var opens: bool, encodes: bool := *, *;
      if !opens {
        env.Fail(Unwritable);
        return Skipped, false;
      }
      file := Garbled;
      if !encodes {
        env.Fail(Unwritable);
        return Torn, false;
      }
      file := Saved(contents);
      return Committed, true;
    }

    /**
     * What an operation leaves in the log: failures exactly if it failed, and listings only if there
     * was no file.
     */
    twostate predicate Logged(ok: bool)
      reads this, env
    {
      && Traffic(old(env.log), env.log)
      && (ok <==> Smooth(old(env.log), env.log))
      && (old(file) != Missing ==> Unasked(old(env.log), env.log))
    }

    /**
     * Reads the entries (`:74-128`).  Without a file, the free addresses of all interfaces are
     * registered at the epoch first; a file that makes no sense counts as empty.
     */
    method Load() returns (r: Result<Entries>, ghost listed: bool, ghost seen: seq<Interface>, ghost bound: seq<IP>)
      modifies this, env`log
      ensures old(clock) == clock && Logged(r.Ok?)
      ensures old(file) != Missing ==> file == old(file) && (r.Ok? ==> r.value == Decode(file))
      ensures old(file) == Missing ==>
        && Listings(old(env.log), env.log, listed, seen, bound)
        && (!listed ==> r == Ok(map[]) && file == Missing)
        && (listed && r.Ok? ==>
              && (forall x :: x in r.value <==> Spare(seen, bound, x))
              && (forall x | x in r.value :: r.value[x] == EPOCH)
              && file == Saved(r.value) && Decode(file) == r.value)
        && (listed && r.Err? ==> file == Missing || file == Garbled)
        && (r.Ok? ==> Seeded(old(env.log), env.log, r.value))
      decreases 1, 0
    {
      listed, seen, bound := false, [], [];
      var opens: bool := *;
      if file == Missing {
        var free, err;
        free, err, listed, seen, bound := FindFreeIPsAtIndex(this, 0, false);
        if !err || |free| > 0 {
          var contents := Epochs(Ips(free));
          ghost var io;
          var ok;
          io, ok := Save(contents);
          SpareIsFree(seen, bound);
          FlooredWhole(contents);
          return if ok then Ok(contents) else Err, listed, seen, bound;
        }
        return Ok(map[]), listed, seen, bound;
      }
      if !opens {
        env.Fail(Unreadable);
        return Err, listed, seen, bound;
      }
      return Ok(Decode(file)), listed, seen, bound;
    }

    /** A change that was made to the loaded entries and then saved, or failed on the way. */
    twostate predicate Changed(ip: IP, stamp: Option<Instant>, io: Io, base: Entries)
      reads this, env
    {
      && (old(file) != Missing ==> base == Decode(old(file)) && file == Write(old(file), ip, stamp, io))
      && (old(file) == Missing ==>
            && (forall x | x in base :: base[x] == EPOCH)
            && (io.Committed? || file == Saved(base) ==> Seeded(old(env.log), env.log, base))
            && (io.Committed? ==> file == Saved(Updated(base, ip, stamp)))
            && (!io.Committed? ==> file in {Missing, Garbled, Saved(base)}))
    }

    /** Records an address as released now (`:167-180`). */
    method TrackIP(ip: IP) returns (ok: bool, ghost stamp: Instant, ghost io: Io, ghost base: Entries)
      modifies this, env`log
      ensures Changed(ip, Some(stamp), io, base) && (ok <==> io.Committed?) && Logged(ok)
      ensures old(clock) <= stamp <= clock
      decreases 2, 0
    {
      stamp, io, base := clock, Skipped, Decode(file);
      var contents, _, _, _ := Load();
      if contents.Err? { return false, stamp, io, base; }
      base := contents.value;
      ghost var log := env.log;
      var now := Now();
      stamp := now;
      io, ok := Save(contents.value[ip := now]);
      if old(file) == Missing { SeededLater(old(env.log), log, env.log, base); }
    }

    /** Records an address as free since the epoch (`:149-162`). */
    method TrackIPAtEpoch(ip: IP) returns (ok: bool, ghost io: Io, ghost base: Entries)
      modifies this, env`log
      ensures Changed(ip, Some(EPOCH), io, base) && (ok <==> io.Committed?) && Logged(ok)
      ensures clock == old(clock)
      decreases 2, 0
    {
      io, base := Skipped, Decode(file);
      var contents, _, _, _ := Load();
      if contents.Err? { return false, io, base; }
      base := contents.value;
      ghost var log := env.log;
      io, ok := Save(contents.value[ip := EPOCH]);
      if old(file) == Missing { SeededLater(old(env.log), log, env.log, base); }
    }

    /** Removes an address (`:183-195`). */
    method ForgetIP(ip: IP) returns (ok: bool, ghost io: Io, ghost base: Entries)
      modifies this, env`log
      ensures Changed(ip, None, io, base) && (ok <==> io.Committed?) && Logged(ok)
      ensures clock == old(clock)
      decreases 2, 0
    {
      io, base := Skipped, Decode(file);
      var contents, _, _, _ := Load();
      if contents.Err? { return false, io, base; }
      base := contents.value;
      ghost var log := env.log;
      io, ok := Save(contents.value - {ip});
      if old(file) == Missing { SeededLater(old(env.log), log, env.log, base); }
    }

    /** (`:198-209`) */
    method HasIP(ip: IP) returns (r: Result<bool>)
      modifies this, env`log
      ensures clock == old(clock) && Logged(r.Ok?)
      ensures old(file) != Missing ==> file == old(file)
      ensures r.Ok? ==> (r.value <==> ip in Decode(file))
      decreases 2, 0
    {
      var contents, _, _, _ := Load();
      if contents.Err? { return Err; }
      return Ok(ip in contents.value);
    }

    /** The addresses released before `t`, in no particular order (`:214-234`); the answer is logged. */
    method TrackedBefore(t: Instant) returns (r: Result<seq<IP>>)
      modifies this, env`log
      ensures clock == old(clock)
      ensures env.log != [] && env.log[|env.log| - 1] == Aged(t, r)
      ensures
        var before := env.log[..|env.log| - 1];
        && Traffic(old(env.log), before)
        && (r.Ok? <==> Smooth(old(env.log), before))
        && (old(file) != Missing ==> Unasked(old(env.log), before))
      ensures old(file) != Missing ==> file == old(file)
      ensures r.Ok? ==> forall x :: x in r.value <==> AgedBefore(Decode(file), x, t)
      ensures r.Ok? ==> forall i, j | 0 <= i < j < |r.value| :: r.value[i] != r.value[j]
      decreases 2, 0
    {
      var contents, _, _, _ := Load();
      r := Err;
      if contents.Ok? {
        var returned := AgedEntries(contents.value, t);
        r := Ok(returned);
      }
      ghost var before := env.log;
      env.log := env.log + [Aged(t, r)];
      assert env.log[..|env.log| - 1] == before;
    }

    /** Removes the file; a file that is not there is fine (`:237-252`). */
    method Clear() returns (ok: bool)
      modifies this`file
      ensures if ok then file == Missing else file == old(file) != Missing
    {
      var removes: bool := *;
      ok := removes || file == Missing;
      if ok { file := Missing; }
    }
  }

  /** Keeps the registry in step with one listed address (`aws/freeip.go:45-59`). */
  method ScanAddress(registry: Registry, ip: IP, found: bool) returns (failed: bool)
    modifies registry, registry.env`log
    ensures old(registry.clock) <= registry.clock
    ensures Traffic(old(registry.env.log), registry.env.log)
    ensures failed ==> !Smooth(old(registry.env.log), registry.env.log)
    ensures old(registry.file) != Missing ==>
      registry.file != Missing && Unasked(old(registry.env.log), registry.env.log)
    ensures old(registry.file) != Missing && Whole(Decode(old(registry.file))) ==>
      var m, m' := Decode(old(registry.file)), Decode(registry.file);
      && Whole(m')
      && (Smooth(old(registry.env.log), registry.env.log) ==>
            Scanned(m, m', ip, found, old(registry.clock), registry.clock))
    decreases 2, 1
  {
    failed := false;
    var known := registry.HasIP(ip);
    ghost var before := registry.file;
    if known.Ok? && !known.value && !found {
      var ok, stamp, io, base := registry.TrackIP(ip);
      if before != Missing && Whole(Decode(before)) { WriteEffect(before, ip, Some(stamp), io); }
      failed := !ok;
    } else if found {
      // whether the registry knew the address, or could be read, does not matter here
      var ok, io, base := registry.ForgetIP(ip);
      if before != Missing && Whole(Decode(before)) { WriteEffect(before, ip, None, io); }
      failed := !ok;
    }
  }

  /** Where a scan that began at `begin` with the file `start` stands after the listed `pairs`. */
  ghost predicate InStep(
    start: File, begin: Instant, pairs: seq<AllocationResult>, bound: seq<IP>, file: File, clock: Instant, exact: bool)
  {
    && begin <= clock
    && (start != Missing ==>
          && file != Missing
          && (Whole(Decode(start)) ==>
                && Whole(Decode(file))
                && (exact ==> Reconciled(Decode(start), Decode(file), pairs, bound, begin, clock))))
  }

  lemma InStepNext(
    start: File, begin: Instant, pairs: seq<AllocationResult>, next: AllocationResult, bound: seq<IP>,
    file: File, clock: Instant, file': File, clock': Instant, exact: bool, exact': bool)
    requires InStep(start, begin, pairs, bound, file, clock, exact)
    requires clock <= clock' && (file != Missing ==> file' != Missing) && (exact' ==> exact)
    requires file != Missing && Whole(Decode(file)) ==>
      && Whole(Decode(file'))
      && (exact' ==> Scanned(Decode(file), Decode(file'), next.ip, next.ip in bound, clock, clock'))
    ensures InStep(start, begin, pairs + [next], bound, file', clock', exact')
  {
    if start != Missing && Whole(Decode(start)) && exact' {
      ReconciledNext(Decode(start), Decode(file), Decode(file'), pairs, next, bound, begin, clock, clock');
    }
  }

  lemma ListNext(done: seq<AllocationResult>, intf: Interface, j: nat, bound: seq<IP>)
    requires j < |intf.ipv4s|
    ensures
      var pairs, next := done + Pairs(intf, j), AllocationResult(intf.ipv4s[j], intf);
      && pairs + [next] == done + Pairs(intf, j + 1)
      && Unbound(pairs + [next], bound) == Unbound(pairs, bound) + if next.ip in bound then [] else [next]
  {
    var pairs, next := done + Pairs(intf, j), AllocationResult(intf.ipv4s[j], intf);
    assert pairs + [next] == done + Pairs(intf, j + 1);
    assert (pairs + [next])[..|pairs|] == pairs;
  }

  /** A scan that began with this file, clock and log, after the listed `pairs`. */
  ghost predicate Underway(
    start: File, begin: Instant, log: seq<Answer>, updates: bool, pairs: seq<AllocationResult>, bound: seq<IP>,
    file: File, clock: Instant, log': seq<Answer>)
  {
    && Traffic(log, log')
    && (start != Missing ==> Unasked(log, log'))
    && (!updates ==> file == start && clock == begin && log' == log)
    && InStep(start, begin, pairs, bound, file, clock, updates && Smooth(log, log'))
  }

  /** What the scan does about one listed address. */
  method ScanListed(
    registry: Registry, next: AllocationResult, bound: seq<IP>, updateRegistry: bool,
    ghost start: File, ghost begin: Instant, ghost log: seq<Answer>, ghost pairs: seq<AllocationResult>)
    returns (failed: bool)
    requires Underway(start, begin, log, updateRegistry, pairs, bound, registry.file, registry.clock, registry.env.log)
    modifies registry, registry.env`log
    ensures failed ==> !Smooth(log, registry.env.log)
    ensures !updateRegistry ==> !failed
    ensures Underway(start, begin, log, updateRegistry, pairs + [next], bound,
                     registry.file, registry.clock, registry.env.log)
    decreases if updateRegistry then 2 else 0, 2
  {
    failed := false;
    ghost var file, clock, exact := registry.file, registry.clock, updateRegistry && Smooth(log, registry.env.log);
    if updateRegistry {
      failed := ScanAddress(registry, next.ip, next.ip in bound);
    }
    InStepNext(start, begin, pairs, next, bound, file, clock,
               registry.file, registry.clock, exact, updateRegistry && Smooth(log, registry.env.log));
  }

  /** The addresses of one interface (`aws/freeip.go:29-60`), appended to those found before. */
  method ScanInterface(
    registry: Registry, intf: Interface, bound: seq<IP>, freeBefore: seq<AllocationResult>, updateRegistry: bool,
    ghost start: File, ghost begin: Instant, ghost log: seq<Answer>, ghost done: seq<AllocationResult>)
    returns (freeIps: seq<AllocationResult>, failed: bool, ghost k: nat)
    requires freeBefore == Unbound(done, bound)
    requires Underway(start, begin, log, updateRegistry, done, bound, registry.file, registry.clock, registry.env.log)
    modifies registry, registry.env`log
    ensures failed ==> !Smooth(log, registry.env.log)
    ensures !updateRegistry ==> !failed
    ensures k <= |intf.ipv4s| && (failed || k == |intf.ipv4s|)
    ensures freeIps == Unbound(done + Pairs(intf, k), bound)
    ensures Underway(start, begin, log, updateRegistry, done + Pairs(intf, k), bound,
                     registry.file, registry.clock, registry.env.log)
    decreases if updateRegistry then 3 else 0, 3
  {
    freeIps, failed, k := freeBefore, false, 0;
    assert done + Pairs(intf, 0) == done;
    for j := 0 to |intf.ipv4s|
      invariant !failed && k == j && freeIps == Unbound(done + Pairs(intf, j), bound)
      invariant Underway(start, begin, log, updateRegistry, done + Pairs(intf, j), bound,
                         registry.file, registry.clock, registry.env.log)
    {
      var next := AllocationResult(intf.ipv4s[j], intf);
      ListNext(done, intf, j, bound);
      if next.ip !in bound { freeIps := freeIps + [next]; }
      failed := ScanListed(registry, next, bound, updateRegistry, start, begin, log, done + Pairs(intf, j));
      k := j + 1;
      if failed { return; }
    }
  }

  /** The loop over the interfaces (`aws/freeip.go:25-62`). */
  method ScanAll(registry: Registry, index: int, intfs: seq<Interface>, bound: seq<IP>, updateRegistry: bool)
    returns (freeIps: seq<AllocationResult>, err: bool, ghost pairs: seq<AllocationResult>)
    modifies registry, registry.env`log
    ensures !err ==> pairs == Listed(intfs, index) && freeIps == FreeOf(intfs, bound, index)
    ensures forall a | a in freeIps :: a in FreeOf(intfs, bound, index)
    ensures err ==> updateRegistry && !Smooth(old(registry.env.log), registry.env.log)
    ensures Underway(old(registry.file), old(registry.clock), old(registry.env.log), updateRegistry, pairs, bound,
                     registry.file, registry.clock, registry.env.log)
    decreases if updateRegistry then 3 else 0, 4
  {
    freeIps, err, pairs := [], false, [];
    ghost var start, begin, log := registry.file, registry.clock, registry.env.log;
    for i := 0 to |intfs|
      invariant !err && pairs == Listed(intfs[..i], index) && freeIps == Unbound(pairs, bound)
      invariant Underway(start, begin, log, updateRegistry, pairs, bound,
                         registry.file, registry.clock, registry.env.log)
    {
      var intf := intfs[i];
      assert intfs[..i + 1][..i] == intfs[..i];
      if index <= intf.number {
        ghost var k;
        freeIps, err, k := ScanInterface(registry, intf, bound, freeIps, updateRegistry, start, begin, log, pairs);
        pairs := pairs + Pairs(intf, k);
        if err {
          PartFree(intfs, i, k, bound, index);
          return;
        }
      }
      assert pairs == Listed(intfs[..i + 1], index);
    }
    assert intfs[..|intfs|] == intfs;
  }

  /**
   * `FindFreeIPsAtIndex` (`aws/freeip.go:12-64`).  `listed` says that metadata and then the
   * namespaces could be listed, as `seen` and `bound`; without them a scan fails.
   */
  method FindFreeIPsAtIndex(registry: Registry, index: int, updateRegistry: bool)
    returns (freeIps: seq<AllocationResult>, err: bool, ghost listed: bool, ghost seen: seq<Interface>, ghost bound: seq<IP>)
    modifies registry, registry.env`log
    ensures old(registry.clock) <= registry.clock
    ensures Listings(old(registry.env.log), registry.env.log, listed, seen, bound)
    ensures Traffic(old(registry.env.log), registry.env.log)
    ensures !listed ==> err && freeIps == []
    ensures err && listed ==> !Smooth(old(registry.env.log), registry.env.log)
    ensures !updateRegistry || !listed ==>
      && registry.file == old(registry.file) && registry.clock == old(registry.clock)
      && |registry.env.log| <= |old(registry.env.log)| + 2
    ensures !err ==> freeIps == FreeOf(seen, bound, index)
    ensures forall a | a in freeIps :: a in FreeOf(seen, bound, index)
    ensures old(registry.file) != Missing && listed ==>
      && registry.file != Missing
      && Unasked(old(registry.env.log) + [Interfaces(Ok(seen)), Bound(Ok(bound))], registry.env.log)
    ensures old(registry.file) != Missing && Whole(Decode(old(registry.file))) ==>
      && Whole(Decode(registry.file))
      && (updateRegistry && listed && Smooth(old(registry.env.log), registry.env.log) ==>
            Reconciled(Decode(old(registry.file)), Decode(registry.file), Listed(seen, index), bound,
                       old(registry.clock), registry.clock))
    decreases if updateRegistry then 3 else 0, 5
  {
    freeIps, err, listed, seen, bound := [], true, false, [], [];
    var interfaces := registry.env.GetInterfaces();
    if interfaces.Err? { return; }
    seen := interfaces.value;
    var boundIps := registry.env.GetIPs();
    if boundIps.Err? { return; }
    listed, bound := true, boundIps.value;
    ghost var log, pairs := registry.env.log, [];
    freeIps, err, pairs := ScanAll(registry, index, interfaces.value, boundIps.value, updateRegistry);
    Later(old(registry.env.log), log, registry.env.log, Bound(boundIps));
  }
}
