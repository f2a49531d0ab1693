/**
 * The registry file of `aws/registry.go` as a value: what a reader makes of it, what a writer
 * leaves behind, and why the file behaves like a map from address to release time.
 */
module RegistryFile {
  import opened Wrap
  import opened JsonTime

  newtype IP = x: int | 0 <= x < 0x1_0000_0000

  type Entries = map<IP, Instant>

  const SCHEMA_VERSION := 1

  /** `Missing` was never written or was cleared; `Garbled` does not decode as JSON. */
  datatype File =
    | Missing
    | Garbled
    | Document(version: int, ips: Option<Entries>)

  /** The entries that `load` finds in a file that exists (an absent file has none of its own). */
  function Decode(f: File): Entries {
    match f
    case Missing => map[]
    case Garbled => map[]
    case Document(version, ips) =>
      if version != SCHEMA_VERSION || ips.None? then map[] else ips.value
  }

  function Floored(m: Entries): (r: Entries)
    ensures r.Keys == m.Keys
  {
    map x | x in m :: Stored(m[x])
  }

  /** The file that a complete `save` leaves. */
  function Saved(m: Entries): File {
    Document(SCHEMA_VERSION, Some(Floored(m)))
  }

  ghost predicate Whole(m: Entries) {
    forall x | x in m :: IsWhole(m[x])
  }

  /** The entries seeded at the epoch for the free addresses found when there is no file. */
  function Epochs(free: set<IP>): (r: Entries)
    ensures r.Keys == free
    ensures forall x | x in r :: r[x] == EPOCH
  {
    map x | x in free :: EPOCH
  }

  /** One registry change: a release time, or `None` to forget the address. */
  function Updated(m: Entries, ip: IP, stamp: Option<Instant>): Entries {
    match stamp
    case Some(t) => m[ip := t]
    case None => m - {ip}
  }

  predicate AgedBefore(m: Entries, x: IP, t: Instant) {
    x in m && m[x] < t
  }

  lemma FlooredWhole(m: Entries)
    ensures Whole(Floored(m))
    ensures Whole(m) ==> Floored(m) == m
  {
    forall x | x in m ensures IsWhole(Stored(m[x])) {
      StoredOnce(m[x]);
    }
  }

  /** A complete save changes one entry, floors it, and keeps every whole entry to the nanosecond. */
  lemma SaveEffect(f: File, ip: IP, stamp: Option<Instant>)
    requires Whole(Decode(f))
    ensures
      var before, after := Decode(f), Decode(Saved(Updated(Decode(f), ip, stamp)));
      && Whole(after)
      && (ip in after <==> stamp.Some?)
      && (stamp.Some? ==> after[ip] == Stored(stamp.value))
      && (forall y | y != ip :: y in after <==> y in before)
      && (forall y | y != ip && y in before :: after[y] == before[y])
  {
    var m := Updated(Decode(f), ip, stamp);
    FlooredWhole(m);
    forall y | y != ip && y in Decode(f) ensures Floored(m)[y] == Decode(f)[y] {
      assert IsWhole(Decode(f)[y]);
    }
  }

  // ----- Histories: the file refines a plain map whose times keep their nanoseconds -----

  datatype Change = Change(ip: IP, stamp: Option<Instant>)

  function ReplayPlain(m: Entries, changes: seq<Change>): Entries
    decreases |changes|
  {
    if changes == [] then m
    else ReplayPlain(Updated(m, changes[0].ip, changes[0].stamp), changes[1..])
  }

  /** Every change loads the file, updates what it decoded and saves all of it again. */
  function ReplayFile(f: File, changes: seq<Change>): File
    decreases |changes|
  {
    if changes == [] then f
    else ReplayFile(Saved(Updated(Decode(f), changes[0].ip, changes[0].stamp)), changes[1..])
  }

  /** A history leaves an address as its last change did, and as it was if no change was about it. */
  lemma {:induction false} LastChangeCounts(m: Entries, changes: seq<Change>, x: IP, n: nat)
    requires n <= |changes| && forall i | n <= i < |changes| :: changes[i].ip != x
    requires 0 < n ==> changes[n - 1].ip == x
    ensures
      var r := ReplayPlain(m, changes);
      if n == 0 then (x in r <==> x in m) && (x in m ==> r[x] == m[x])
      else if changes[n - 1].stamp.None? then x !in r
      else x in r && r[x] == changes[n - 1].stamp.value
    decreases |changes|
  {
    if changes != [] {
      LastChangeCounts(Updated(m, changes[0].ip, changes[0].stamp), changes[1..], x, if n == 0 then 0 else n - 1);
    }
  }

  lemma FlooringCommutes(m: Entries, ip: IP, stamp: Option<Instant>)
    ensures Floored(Updated(Floored(m), ip, stamp)) == Floored(Updated(m, ip, stamp))
  {
    var left, right := Updated(Floored(m), ip, stamp), Updated(m, ip, stamp);
    assert left.Keys == right.Keys;
    forall x | x in left ensures Stored(left[x]) == Stored(right[x]) {
      if stamp.None? || x != ip { StoredOnce(m[x]); }
    }
  }

  /** However often the file was rewritten, its entries are the plain map's, floored once. */
  lemma {:induction false} FileRefinesPlainMap(f: File, m: Entries, changes: seq<Change>)
    requires Decode(f) == Floored(m)
    ensures Decode(ReplayFile(f, changes)) == Floored(ReplayPlain(m, changes))
    decreases |changes|
  {
    if changes != [] {
      var ip, stamp := changes[0].ip, changes[0].stamp;
      FlooringCommutes(m, ip, stamp);
      FileRefinesPlainMap(Saved(Updated(Decode(f), ip, stamp)), Updated(m, ip, stamp), changes[1..]);
    }
  }

  /**
   * `TrackedBefore` on the file, told in terms of the exact release times: nothing released before
   * `t` is missed, and whatever is reported was released less than a second after `t`.
   */
  lemma AgedAgainstPlainMap(f: File, m: Entries, changes: seq<Change>, x: IP, t: Instant)
    requires Decode(f) == Floored(m)
    ensures
      var exact := ReplayPlain(m, changes);
      var aged := AgedBefore(Decode(ReplayFile(f, changes)), x, t);
      && (aged <==> x in exact && Stored(exact[x]) < t)
      && (AgedBefore(exact, x, t) ==> aged)
      && (aged ==> AgedBefore(exact, x, t + SECOND - 1))
  {
    FileRefinesPlainMap(f, m, changes);
  }

  /** A file that makes no sense, one of another schema included, counts as empty and is replaced. */
  lemma SenselessIsReplaced(f: File, ip: IP, t: Instant)
    requires f.Garbled? || (f.Document? && (f.version != SCHEMA_VERSION || f.ips.None?))
    ensures Decode(f) == map[]
    ensures Decode(Saved(Updated(Decode(f), ip, Some(t)))) == map[ip := Stored(t)]
  {
    assert Floored(map[ip := t]) == map[ip := Stored(t)];
  }

  // ----- Writes that do not complete -----

  /** How one truncate-then-encode write ends: not begun, torn, or complete. */
  datatype Io = Skipped | Torn | Committed

  function Write(f: File, ip: IP, stamp: Option<Instant>, io: Io): File {
    match io
    case Skipped => f
    case Torn => Garbled
    case Committed => Saved(Updated(Decode(f), ip, stamp))
  }

  /** A torn or interrupted write is read back as the old entries, no entries, or the new entries. */
  lemma WriteEffect(f: File, ip: IP, stamp: Option<Instant>, io: Io)
    requires Whole(Decode(f))
    ensures
      var before, after := Decode(f), Decode(Write(f, ip, stamp, io));
      && Whole(after)
      && (forall y | y in after && y != ip :: y in before && after[y] == before[y])
      && (ip in after ==>
            || (io == Committed && stamp.Some? && after[ip] == Stored(stamp.value))
            || (io == Skipped && ip in before && after[ip] == before[ip]))
      && (io == Committed ==>
            && (ip in after <==> stamp.Some?)
            && (forall y | y in before && y != ip :: y in after))
  {
    SaveEffect(f, ip, stamp);
  }
}
