/**
 * `aws/cache/cacheable.go` and the clients that answer from it (`aws/subnets.go`, `aws/vpc.go`,
 * `aws/limits.go`).
 *
 * `V` is what a client fetches.  Two ghost lists, of the answers that were fetched and of those that
 * were stored, let contracts say where a value comes from and how old it is, in any run of calls.
 */
module AwsCache {
  import opened Wrap
  import opened JsonTime

  datatype State = CacheFound | CacheExpired | CacheNoEntry | CacheNotAvailable

  /** A cache file: readable, or left in pieces by a write that did not complete. */
  datatype CacheFile<V> = Torn | Cacheable(expires: Instant, contents: V)

  /** What AWS answered to a request that a client could not answer from its cache. */
  datatype Reply<V> = Reply(key: string, answer: Result<V>)

  /** An answer that was fetched and then stored at the time `stored` for the given lifetime. */
  datatype Fetch<V> = Fetch(key: string, value: V, stored: Instant, lifetime: int)

  /** The time at which an entry is found for the last time. */
  function Expiry(stored: Instant, lifetime: int): Instant {
    Stored(stored + lifetime)
  }

  /** An entry is found for at least its lifetime less a second, and never for longer than its lifetime. */
  lemma ExpiryWithinLifetime(stored: Instant, lifetime: int, now: Instant)
    ensures now <= Expiry(stored, lifetime) ==> now - stored <= lifetime
    ensures Expiry(stored, lifetime) < now ==> lifetime - SECOND < now - stored
  {
  }

  ghost predicate Made<V>(f: Fetch<V>, key: string, file: CacheFile<V>) {
    file == Cacheable(Expiry(f.stored, f.lifetime), f.value) && f.key == key
  }

  ghost predicate Holds<V(!new)>(history: seq<Fetch<V>>, key: string, file: CacheFile<V>) {
    exists i :: 0 <= i < |history| && Made(history[i], key, file)
  }

  /** Every readable file holds an answer of the history, with the expiry that it was stored with. */
  ghost predicate Sourced<V(!new)>(files: map<string, CacheFile<V>>, history: seq<Fetch<V>>) {
    forall key | key in files && files[key].Cacheable? :: Holds(history, key, files[key])
  }

  lemma StoreKeepsSources<V(!new)>(files: map<string, CacheFile<V>>, history: seq<Fetch<V>>, made: Fetch<V>)
    requires Sourced(files, history)
    ensures Sourced(files[made.key := Cacheable(Expiry(made.stored, made.lifetime), made.value)], history + [made])
  {
    var files' := files[made.key := Cacheable(Expiry(made.stored, made.lifetime), made.value)];
    var all := history + [made];
    forall key | key in files' && files'[key].Cacheable? ensures Holds(all, key, files'[key]) {
      if key == made.key {
        assert Made(all[|history|], key, files'[key]);
      } else {
        var i :| 0 <= i < |history| && Made(history[i], key, files[key]);
        assert Made(all[i], key, files'[key]);
      }
    }
  }

  class Cache<V(!new)> {
    var files: map<string, CacheFile<V>>
    var clock: Instant
    ghost var replies: seq<Reply<V>>
    ghost var history: seq<Fetch<V>>

    ghost predicate Valid()
      reads this
    {
      Sourced(files, history) && forall f | f in history :: f.stored <= clock
    }

    constructor ()
      ensures Valid() && files == map[] && history == [] && replies == []
    {
      files, history, replies, clock := map[], [], [], EPOCH;
    }

    method Now() returns (t: Instant)
      requires Valid()
      modifies this`clock
      ensures Valid() && old(clock) <= clock && t == clock
    {
      var d: int := *;
      if 0 < d { clock := clock + d; }
      t := clock;
    }

    /** The request to AWS behind a cached client. */
    method Request(key: string) returns (answer: Result<V>)
      requires Valid()
      modifies this`replies
      ensures Valid() && replies == old(replies) + [Reply(key, answer)]
    {
      answer := *;
      replies := replies + [Reply(key, answer)];
    }

    /** `Get` (`:59-85`).  A found value is an answer stored at most its lifetime ago. */
    method Get(key: string)
      returns (state: State, value: Option<V>, ghost readable: bool, ghost source: Option<Fetch<V>>)
      requires Valid()
      modifies this`clock
      ensures Valid() && old(clock) <= clock
      ensures state.CacheFound? <==> value.Some?
      ensures state.CacheFound? ==>
        && source.Some? && source.value in history && source.value.key == key && source.value.value == value.value
        && clock - source.value.stored <= source.value.lifetime
      ensures state.CacheExpired? ==>
        && source.Some? && source.value in history && source.value.key == key
        && source.value.lifetime - SECOND < clock - source.value.stored
      ensures state.CacheFound? || state.CacheExpired? <==> readable && key in files && files[key].Cacheable?
    {
      value, source := None, None;
      var directory, opens: bool := *, *;
      readable := directory && opens;
      if !directory { return CacheNotAvailable, value, readable, source; }
      if !opens || key !in files { return CacheNoEntry, value, readable, source; }
      var file := files[key];
      if file.Torn? { return CacheNoEntry, value, readable, source; }
      ghost var i :| 0 <= i < |history| && Made(history[i], key, file);
      source := Some(history[i]);
      var now := Now();
      ExpiryWithinLifetime(source.value.stored, source.value.lifetime, now);
      if file.expires < now { return CacheExpired, value, readable, source; }
      return CacheFound, Some(file.contents), readable, source;
    }

    /** `Store` (`:89-117`).  Only this key's file changes; a write that breaks off leaves it torn. */
    method Store(key: string, lifetime: int, data: V) returns (state: State, ghost made: Fetch<V>)
      requires Valid()
      modifies this`files, this`clock, this`history
      ensures Valid() && old(clock) <= clock
      ensures state.CacheFound? || state.CacheNotAvailable?
      ensures made == Fetch(key, data, made.stored, lifetime) && old(clock) <= made.stored <= clock
      ensures history == old(history) + if state.CacheFound? then [made] else []
      ensures state.CacheFound? ==> files == old(files)[key := Cacheable(Expiry(made.stored, lifetime), data)]
      ensures !state.CacheFound? ==> files == old(files) || files == old(files)[key := Torn]
    {
      var directory, opens, encodes: bool := *, *, *;
      made := Fetch(key, data, clock, lifetime);
      if !directory || !opens { return CacheNotAvailable, made; }
      files := files[key := Torn];
      var now := Now();
      made := Fetch(key, data, now, lifetime);
      if !encodes { return CacheNotAvailable, made; }
      StoreKeepsSources(old(files), history, made);
      files, history := files[key := Cacheable(Stored(now + lifetime), data)], history + [made];
      assert files == old(files)[key := Cacheable(Stored(now + lifetime), data)];
      return CacheFound, made;
    }

    /**
     * The cached clients (`aws/subnets.go:42-52`, `aws/vpc.go:25-52`).  Without a request the answer
     * is one stored within its lifetime; otherwise it is what AWS replied, and only a good reply is
     * ever stored.
     */
    method Cached(key: string, lifetime: int) returns (r: Result<V>, ghost source: Option<Fetch<V>>)
      requires Valid()
      modifies this
      ensures Valid() && old(clock) <= clock
      ensures replies == old(replies) || replies == old(replies) + [Reply(key, r)]
      ensures replies == old(replies) ==>
        && r.Ok? && files == old(files) && history == old(history)
        && source.Some? && source.value in history && source.value.key == key && source.value.value == r.value
        && clock - source.value.stored <= source.value.lifetime
      ensures r.Err? ==> files == old(files) && history == old(history)
      ensures replies != old(replies) && r.Ok? ==>
        && (history == old(history) || exists made ::
              history == old(history) + [made] && made.key == key && made.value == r.value
              && made.lifetime == lifetime && old(clock) <= made.stored <= clock)
        && (forall other | other != key :: other in files <==> other in old(files))
        && (forall other | other != key && other in files :: files[other] == old(files)[other])
        && (files == old(files) || (key in files && (files[key].Torn? || files[key].contents == r.value)))
    {
      var state, value;
      ghost var readable;
      state, value, readable, source := Get(key);
      if state == CacheFound { return Ok(value.value), source; }
      r := Request(key);
      if r.Ok? {
        var _, _ := Store(key, lifetime, r.value);
      }
    }
  }
}
