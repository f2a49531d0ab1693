/**
 * `addPolicyRules` and `findFreeTable` of `plugin/unnumbered-ptp/unnumbered-ptp.go`, running against
 * a kernel that other processes keep changing.
 *
 * A `Kernel` object holds the shared state of `RouteClaim`.  Between any two kernel calls of one
 * process, `Others` lets the rest of the world take any number of steps.  Every method keeps
 * `Valid`: the state is reachable in `RouteClaim`.  So the code below adds nothing to the runs that
 * `RouteSafety` is about.
 */
module UnnumberedPtp {
  import opened Wrap
  import opened RouteOrder
  import opened RouteClaim
  import RouteSafety

  /** A listing of rules brings tables or an error; additions succeed or fail. */
  datatype Answer = Rules(tables: Option<set<Table>>) | RouteAdded(ok: bool) | RuleAdded(ok: bool)

  /** How many routes could not be added. */
  ghost function Refusals(answers: seq<Answer>): nat {
    if answers == [] then 0
    else Refusals(answers[..|answers| - 1]) + if answers[|answers| - 1] == RouteAdded(false) then 1 else 0
  }

  lemma RefusalsNext(answers: seq<Answer>, a: Answer)
    ensures Refusals(answers + [a]) == Refusals(answers) + if a == RouteAdded(false) then 1 else 0
  {
    assert (answers + [a])[..|answers|] == answers;
  }

  class Kernel {
    const config: Config
    var st: State
    /** What the kernel answered to the calls of this process. */
    ghost var answers: seq<Answer>

    ghost predicate Valid()
      reads this
    {
      Reachable(config, st)
    }

    constructor (config: Config)
      ensures Valid() && this.config == config && st.procs == map[] && answers == []
    {
      this.config, answers := config, [];
      this.st := State({}, {}, {}, {}, map[], map[], {});
      new;
      assert Init(st) && Runs(config, st, [], st);
    }

    /** One atomic step of the shared state. */
    method Perform(a: Action)
      requires Valid() && Enabled(config, st, a)
      modifies this`st
      ensures Valid() && st == Step(config, old(st), a)
    {
      ReachStep(config, st, a);
      st := Step(config, st, a);
    }

    /** Any number of steps of everybody but `me`. */
    method Others(me: Link)
      requires Valid() && me in st.procs
      modifies this`st
      ensures Valid() && me in st.procs && st.procs[me] == old(st.procs[me])
    {
      var n: nat := *;
      while 0 < n
        invariant Valid() && me in st.procs && st.procs[me] == old(st.procs[me])
      {
        var a: Action := *;
        if Mover(a) != Some(me) && Enabled(config, st, a) {
          RouteSafety.ReachableSane(config, st);
          NewLinksAreNew(config, st, a);
          Perform(a);
        }
        n := n - 1;
      }
    }

    /** `netlink.RuleList(netlink.FAMILY_V4)`: the tables of all IPv4 rules, or an error. */
    method RuleListV4(me: Link, start: Table) returns (r: Result<seq<Table>>)
      requires Valid() && me in st.procs && st.procs[me].Waiting?
      requires StartsAt(config, start)
      modifies this
      ensures Valid()
      ensures
        var tables := RuleTables(old(st).rules) + old(st).foreign4;
        st == Step(config, old(st), if r.Ok? then ListV4(me, start) else ListFails(me))
        && (r.Ok? ==> forall t :: t in r.value <==> t in tables)
        && answers == old(answers) + [Rules(if r.Ok? then Some(tables) else None)]
    {
      var fails: bool := *;
      answers := answers + [Rules(if fails then None else Some(RuleTables(st.rules) + st.foreign4))];
      if fails {
        r := Err;
        Perform(ListFails(me));
      } else {
        var tables := Listing(RuleTables(st.rules) + st.foreign4);
        r := Ok(tables);
        Perform(ListV4(me, start));
      }
    }

    /** `netlink.RuleList(netlink.FAMILY_V6)`. */
    method RuleListV6(me: Link) returns (r: Result<seq<Table>>)
      requires Valid() && me in st.procs && st.procs[me].Listed?
      modifies this
      ensures Valid() && st == Step(config, old(st), if r.Ok? then ListV6(me) else ListFails(me))
      ensures r.Ok? ==> forall t :: t in r.value <==> t in old(st).foreign6
      ensures answers == old(answers) + [Rules(if r.Ok? then Some(old(st).foreign6) else None)]
    {
      var fails: bool := *;
      answers := answers + [Rules(if fails then None else Some(st.foreign6))];
      if fails {
        r := Err;
        Perform(ListFails(me));
      } else {
        var tables := Listing(st.foreign6);
        r := Ok(tables);
        Perform(ListV6(me));
      }
    }

    /** `netlink.RouteAdd`: creates exclusively, and may fail for reasons of its own. */
    method RouteAdd(link: Link, table: Table, dst: Dst) returns (ok: bool)
      requires Valid() && link in st.procs && st.procs[link].Adding?
      requires st.procs[link].k < |st.procs[link].routes|
      requires table == st.procs[link].table && dst == st.procs[link].routes[st.procs[link].k]
      modifies this
      ensures Valid() && link in st.procs && answers == old(answers) + [RouteAdded(ok)]
      ensures ok ==> (table, dst) !in old(st).routes && st.routes == old(st).routes[(table, dst) := link]
      ensures !ok ==> st.routes == old(st).routes
      ensures
        var Adding(routes, tries, _, k) := old(st).procs[link];
        st.procs[link] == if ok then NextRoute(routes, tries, table, k + 1) else Retry(routes, tries + 1)
    {
      var fault: bool := *;
      ok := Adds(st, link, table, dst, fault);
      answers := answers + [RouteAdded(ok)];
      Perform(PutRoute(link, fault));
    }

    /** `netlink.RuleAdd`. */
    method RuleAdd(link: Link, table: Table) returns (ok: bool)
      requires Valid() && link in st.procs && st.procs[link].Chosen? && st.procs[link].table == table
      modifies this
      ensures Valid() && link in st.procs && answers == old(answers) + [RuleAdded(ok)]
      ensures st.rules == if ok then old(st).rules + {(link, table)} else old(st).rules
      ensures st.procs[link] == if ok then Done(old(st).procs[link].routes, table) else GaveUp(old(st).procs[link].routes)
    {
      var fault: bool := *;
      ok := !fault;
      answers := answers + [RuleAdded(ok)];
      Perform(PutRule(link, fault));
    }
  }

  /** Some listing of a set of tables. */
  method Listing(tables: set<Table>) returns (r: seq<Table>)
    ensures forall t :: t in r <==> t in tables
  {
    r := [];
    var rest := tables;
    while rest != {}
      invariant rest <= tables
      invariant forall t :: t in tables <==> t in r || t in rest
      decreases rest
    {
      var t :| t in rest;
      r, rest := r + [t], rest - {t};
    }
  }

  ghost function Between(start: Table, end: Table): (r: set<Table>)
    requires start <= end
    ensures forall t :: t in r <==> start <= t < end
    ensures |r| == end as int - start as int
    decreases end as int - start as int
  {
    if start == end then {} else Between(start, end - 1) + {end - 1}
  }

  lemma UsedTablesBetween(taken: set<Table>, start: Table, end: Table)
    requires start <= end && forall t | start <= t < end :: t in taken
    ensures end as int - start as int <= |taken|
  {
    Cardinality(Between(start, end), taken);
  }

  lemma {:induction false} Cardinality(small: set<Table>, large: set<Table>)
    requires small <= large
    ensures |small| <= |large|
    decreases |small|
  {
    if small != {} {
      var t :| t in small;
      Cardinality(small - {t}, large - {t});
    }
  }

  /**
   * The scan of `findFreeTable` (`:178-184`): the least unused table from `start` on, found within
   * as many steps as tables are used; the error means that every remaining number is used.
   */
  method FirstUnused(taken: set<Table>, start: Table) returns (r: Result<Table>)
    ensures r.Ok? ==> IsFreeTable(taken, start, r.value) && r.value as int - start as int <= |taken|
    ensures r.Ok? ==> start <= r.value < MAX_TABLE && r.value !in taken && forall t | start <= t < r.value :: t in taken
    ensures r.Err? <==> forall t | start <= t < MAX_TABLE :: t in taken
    ensures start as int + |taken| < MAX_TABLE as int ==> r.Ok?
  {
    var i := start;
    while i < MAX_TABLE
      invariant start <= i && (i <= MAX_TABLE || i == start)
      invariant forall t | start <= t < i :: t in taken
      decreases MAX_TABLE as int - i as int
    {
      if i !in taken {
        UsedTablesBetween(taken, start, i);
        return Ok(i);
      }
      i := i + 1;
    }
    if start <= MAX_TABLE { UsedTablesBetween(taken, start, i); }
    return Err;
  }

  /** Marks the tables of one family's rules as used (`:174-176`). */
  method MarkUsed(taken: set<Table>, rules: seq<Table>, ghost tables: set<Table>) returns (r: set<Table>)
    requires forall t :: t in rules <==> t in tables
    ensures r == taken + tables
  {
    r := taken;
    for i := 0 to |rules|
      invariant forall t :: t in r <==> t in taken || t in rules[..i]
    {
      r := r + {rules[i]};
    }
    assert rules[..|rules|] == rules;
  }

  /** The used tables, going by the listings: those that either family's rules name, if both could be listed. */
  ghost predicate ByListings(before: seq<Answer>, after: seq<Answer>, used: Option<set<Table>>) {
    var n := |before|;
    before <= after &&
    match used
    case Some(tables) =>
      && |after| == n + 2
      && after[n].Rules? && after[n].tables.Some? && after[n + 1].Rules? && after[n + 1].tables.Some?
      && tables == after[n].tables.value + after[n + 1].tables.value
    case None =>
      || after == before + [Rules(None)]
      || (|after| == n + 2 && after[n].Rules? && after[n].tables.Some? && after[n + 1] == Rules(None))
  }

  lemma ListingsRefuseNothing(before: seq<Answer>, after: seq<Answer>, used: Option<set<Table>>)
    requires ByListings(before, after, used)
    ensures Refusals(after) == Refusals(before)
  {
    var n := |before|;
    RefusalsNext(before, after[n]);
    if |after| == n + 1 {
      assert after == before + [after[n]];
    } else {
      assert after == before + [after[n]] + [after[n + 1]];
      RefusalsNext(before + [after[n]], after[n + 1]);
    }
  }

  /** Reads the rules of both families, one after the other (`:167-177`). */
  method UsedTables(k: Kernel, me: Link, start: Table) returns (r: Option<set<Table>>)
    requires k.Valid() && me in k.st.procs && k.st.procs[me].Waiting?
    requires StartsAt(k.config, start)
    modifies k
    ensures k.Valid() && me in k.st.procs
    ensures ByListings(old(k.answers), k.answers, r)
    ensures
      var Waiting(routes, tries) := old(k.st.procs[me]);
      k.st.procs[me] == if r.Some? then Looked(routes, tries, start, r.value) else GaveUp(routes)
  {
    k.Others(me);
    var rules := k.RuleListV4(me, start);
    if rules.Err? { return None; }
    var taken := MarkUsed({}, rules.value, k.st.procs[me].used);
    k.Others(me);
    ghost var foreign6 := k.st.foreign6;
    rules := k.RuleListV6(me);
    if rules.Err? { return None; }
    taken := MarkUsed(taken, rules.value, foreign6);
    assert taken == k.st.procs[me].used;
    r := Some(taken);
  }

  /**
   * `findFreeTable` (`:166-185`): the least table from `start` on that no listed rule names, or an
   * error because a listing failed or every table is named.
   */
  method FindFreeTable(k: Kernel, me: Link, start: Table) returns (r: Result<Table>, ghost used: Option<set<Table>>)
    requires k.Valid() && me in k.st.procs && k.st.procs[me].Waiting?
    requires StartsAt(k.config, start)
    modifies k
    ensures k.Valid() && me in k.st.procs
    ensures ByListings(old(k.answers), k.answers, used)
    ensures r.Ok? ==> used.Some? && IsFreeTable(used.value, start, r.value)
    ensures r.Ok? ==>
      start <= r.value < MAX_TABLE && r.value !in used.value && forall t | start <= t < r.value :: t in used.value
    ensures r.Err? ==> used.None? || forall t | start <= t < MAX_TABLE :: t in used.value
    ensures
      var Waiting(routes, tries) := old(k.st.procs[me]);
      k.st.procs[me] == if r.Ok? then Begin(routes, tries, r.value) else GaveUp(routes)
  {
    var taken := UsedTables(k, me, start);
    used := taken;
    if taken.None? { return Err, used; }
    r := FirstUnused(taken.value, start);
    k.Perform(if r.Ok? then Pick(me, r.value) else ListFails(me));
  }

  /** Adds the routes one by one; the first failure gives the table up (`:205-216`). */
  method AddRoutes(k: Kernel, me: Link, table: Table, routes: array<Dst>, ghost tries: nat) returns (ok: bool)
    requires k.Valid() && me in k.st.procs && k.st.procs[me] == Begin(routes[..], tries, table)
    modifies k
    ensures k.Valid() && me in k.st.procs
    ensures k.st.procs[me] == if ok then Chosen(routes[..], table) else Retry(routes[..], tries + 1)
    ensures old(k.answers) <= k.answers
    ensures Refusals(k.answers) == Refusals(old(k.answers)) + if ok then 0 else 1
  {
    ok := true;
    var n := 0;
    while n < routes.Length
      invariant 0 <= n <= routes.Length
      invariant k.Valid() && me in k.st.procs
      invariant k.st.procs[me] == NextRoute(routes[..], tries, table, n)
      invariant old(k.answers) <= k.answers && Refusals(k.answers) == Refusals(old(k.answers))
    {
      k.Others(me);
      ghost var answers := k.answers;
      ok := k.RouteAdd(me, table, routes[n]);
      RefusalsNext(answers, RouteAdded(ok));
      if !ok { return; }
      n := n + 1;
    }
  }

  /** `addPolicyRules` (`:187-244`) for the new veth `me`. */
  method AddPolicyRules(k: Kernel, me: Link, routes: array<Dst>) returns (r: Result<Table>)
    requires k.Valid() && me !in k.st.procs && routes[..] in k.config.menu
    requires 0 <= k.config.tableStart && k.config.tableStart as int + TABLE_JITTER < 0x8000_0000_0000_0000
    modifies k, routes
    ensures k.Valid() && me in k.st.procs
    ensures routes[..] == Sort(old(routes[..])) && old(k.answers) <= k.answers
    ensures k.st.procs[me] == if r.Ok? then Done(routes[..], r.value) else GaveUp(routes[..])
    ensures r.Err? ==>
      || ClaimFails(k.config, old(k.answers), k.answers)
      || (|old(k.answers)| < |k.answers| && k.answers[|k.answers| - 1] == RuleAdded(false))
    ensures r.Ok? ==> Distinct(routes[..])
    ensures r.Ok? ==> Claims(k.config, old(k.answers), k.answers, r.value)
    ensures r.Ok? ==>
      && (me, r.value) in k.st.rules
      && (me in k.st.live ==>
            forall x | x in routes[..] :: (r.value, x) in k.st.routes && k.st.routes[(r.value, x)] == me)
    ensures RouteSafety.SharedLeast(k.config) ==> RouteSafety.TablesExclusive(k.st)
  {
    RouteSafety.ReachableSane(k.config, k.st);
    k.Perform(Arrive(me, routes[..]));
    SortSlice(routes);
    r := ClaimTable(k, me, routes);
    if r.Ok? {
      k.Others(me);
      ghost var log := k.answers;
      var ok := k.RuleAdd(me, r.value);
      ClaimsLater(k.config, old(k.answers), log, k.answers, r.value);
      if !ok { r := Err; }
    }
    Settled(k, me);
  }

  /** The search from `start`, begun with the answers `mid`, ended in an error. */
  ghost predicate SearchFails(c: Config, mid: seq<Answer>, after: seq<Answer>, used: Option<set<Table>>, start: Table) {
    && ByListings(mid, after, used)
    && StartsAt(c, start)
    && (used.None? || forall t | start <= t < MAX_TABLE :: t in used.value)
  }

  /** No table is claimed because ten times a route could not be added, or because a search failed. */
  ghost predicate ClaimFails(c: Config, before: seq<Answer>, after: seq<Answer>) {
    || Refusals(after) == Refusals(before) + ATTEMPTS
    || exists mid, used, start :: before <= mid && SearchFails(c, mid, after, used, start)
  }

  /**
   * A table was claimed that a search found: the least one, from a start within a thousand of the
   * configured one, that neither of two successful listings names.
   */
  ghost predicate Claims(c: Config, before: seq<Answer>, after: seq<Answer>, table: Table) {
    exists mid, listed, used, start ::
      before <= mid && ByListings(mid, listed, Some(used)) && listed <= after && FoundFrom(c, used, start, table)
  }

  ghost predicate FoundFrom(c: Config, used: set<Table>, start: Table, table: Table) {
    && c.tableStart as int <= start as int < c.tableStart as int + 1000
    && start <= table && table !in used && forall t | start <= t < table :: t in used
  }

  lemma ClaimsLater(c: Config, before: seq<Answer>, log1: seq<Answer>, log2: seq<Answer>, table: Table)
    requires Claims(c, before, log1, table) && log1 <= log2
    ensures Claims(c, before, log2, table)
  {
    var mid, listed, used, start :|
      before <= mid && ByListings(mid, listed, Some(used)) && listed <= log1 && FoundFrom(c, used, start, table);
    assert listed <= log2;
  }

  /** Up to ten attempts at a table (`:196-230`). */
  method ClaimTable(k: Kernel, me: Link, routes: array<Dst>) returns (r: Result<Table>)
    requires k.Valid() && me in k.st.procs && k.st.procs[me] == Waiting(routes[..], 0)
    requires 0 <= k.config.tableStart && k.config.tableStart as int + TABLE_JITTER < 0x8000_0000_0000_0000
    modifies k
    ensures k.Valid() && me in k.st.procs
    ensures k.st.procs[me] == if r.Ok? then Chosen(routes[..], r.value) else GaveUp(routes[..])
    ensures old(k.answers) <= k.answers
    ensures r.Err? ==> ClaimFails(k.config, old(k.answers), k.answers)
    ensures r.Ok? ==> Claims(k.config, old(k.answers), k.answers, r.value)
  {
    var table: Table, i := -1, 0;
    while i < ATTEMPTS && table == -1
      invariant 0 <= i <= ATTEMPTS
      invariant k.Valid() && me in k.st.procs
      invariant k.st.procs[me] == if table == -1 then Retry(routes[..], i) else Chosen(routes[..], table)
      invariant old(k.answers) <= k.answers
      invariant table != -1 ==> Claims(k.config, old(k.answers), k.answers, table)
      invariant table == -1 ==> Refusals(k.answers) == Refusals(old(k.answers)) + i
      decreases ATTEMPTS - i
    {
      var jitter: nat := *;
      ghost var mid := k.answers;
      var start := k.config.tableStart + (jitter % TABLE_JITTER) as Table;
      var found;
      ghost var used;
      found, used := FindFreeTable(k, me, start);
      ListingsRefuseNothing(mid, k.answers, used);
      if found.Err? {
        assert SearchFails(k.config, mid, k.answers, used, start);
        return Err;
      }
      table := found.value;
      ghost var listed := k.answers;
      var ok := AddRoutes(k, me, table, routes, i);
      assert ByListings(mid, listed, Some(used.value)) && FoundFrom(k.config, used.value, start, found.value);
      if !ok { table := -1; }
      i := i + 1;
    }
    r := if table == -1 then Err else Ok(table);
  }

  /** What `RouteSafety` says of any state that a method leaves behind. */
  lemma Settled(k: Kernel, me: Link)
    requires k.Valid() && me in k.st.procs
    ensures k.st.procs[me].Done? ==> Distinct(k.st.procs[me].routes)
    ensures k.st.procs[me].Done? && me in k.st.live ==>
      var Done(routes, table) := k.st.procs[me];
      forall x | x in routes :: (table, x) in k.st.routes && k.st.routes[(table, x)] == me
    ensures RouteSafety.SharedLeast(k.config) ==> RouteSafety.TablesExclusive(k.st)
  {
    RouteSafety.ReachableSane(k.config, k.st);
    assert Owned(k.st, me, k.st.procs[me]);
    if RouteSafety.SharedLeast(k.config) { RouteSafety.TablesAreExclusive(k.config, k.st); }
  }
}
