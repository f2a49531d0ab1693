/**
 * Many `addPolicyRules` at once (`plugin/unnumbered-ptp/unnumbered-ptp.go:187-244`), each for the
 * veth of its own pod, over the policy rules and routes of one kernel.  The plugin takes no lock:
 * steps of different processes, of the DEL teardown (`:591-605`) and of foreign programs that
 * change rules interleave freely.
 *
 * A process is named by its veth, whose interface index the kernel does not give out again.
 */
module RouteClaim {
  import opened Wrap
  import opened RouteOrder

  type Link = nat
  /** A Go `int`. */
  newtype Table = x: int | -0x8000_0000_0000_0000 <= x < 0x8000_0000_0000_0000

  const ATTEMPTS: nat := 10
  const TABLE_JITTER := 1000
  const MAX_TABLE: Table := 0xFFFF_FFFF

  /** The destination lists that callers may bring, and the first table they may use. */
  datatype Config = Config(menu: set<seq<Dst>>, tableStart: Table)

  datatype Pc =
    | Waiting(routes: seq<Dst>, tries: nat)
    | Listed(routes: seq<Dst>, tries: nat, start: Table, used: set<Table>)
    | Looked(routes: seq<Dst>, tries: nat, start: Table, used: set<Table>)
    | Adding(routes: seq<Dst>, tries: nat, table: Table, k: nat)
    | Chosen(routes: seq<Dst>, table: Table)
    | Done(routes: seq<Dst>, table: Table)
    | GaveUp(routes: seq<Dst>)

  /**
   * `rules` are the plugin's own rules; `foreign4` and `foreign6` are the tables named by the
   * remaining rules of each family.  `faulted` remembers for which links a kernel call failed for
   * another reason than an existing route.
   */
  datatype State = State(
    live: set<Link>,
    rules: set<(Link, Table)>,
    foreign4: set<Table>,
    foreign6: set<Table>,
    routes: map<(Table, Dst), Link>,
    procs: map<Link, Pc>,
    faulted: set<Link>)

  datatype Action =
    | Arrive(l: Link, order: seq<Dst>)
    | ListV4(l: Link, start: Table)
    | ListV6(l: Link)
    | Pick(l: Link, table: Table)
    | ListFails(l: Link)
    | PutRoute(l: Link, fault: bool)
    | PutRule(l: Link, fault: bool)
    // the environment
    | DropRule(l: Link)
    | DropLink(l: Link)
    | Foreign(tables4: set<Table>, tables6: set<Table>)

  function RuleTables(rules: set<(Link, Table)>): (r: set<Table>)
    ensures forall t :: t in r <==> exists l :: (l, t) in rules
  {
    set rule | rule in rules :: rule.1
  }

  /** What `findFreeTable` returns: the least unused table from `start` on. */
  predicate IsFreeTable(used: set<Table>, start: Table, table: Table) {
    start <= table < MAX_TABLE && table !in used && forall t | start <= t < table :: t in used
  }

  /** The scan for a table starts at random within a thousand tables. */
  predicate StartsAt(c: Config, start: Table) {
    c.tableStart as int <= start as int < c.tableStart as int + TABLE_JITTER
  }

  predicate Enabled(c: Config, s: State, a: Action) {
    match a
    case Arrive(l, order) => l !in s.procs && l !in s.live && order in c.menu
    case ListV4(l, start) =>
      l in s.procs && s.procs[l].Waiting? && StartsAt(c, start)
    case ListV6(l) => l in s.procs && s.procs[l].Listed?
    case Pick(l, table) =>
      l in s.procs && s.procs[l].Looked? && IsFreeTable(s.procs[l].used, s.procs[l].start, table)
    case ListFails(l) => l in s.procs && (s.procs[l].Waiting? || s.procs[l].Listed? || s.procs[l].Looked?)
    case PutRoute(l, _) => l in s.procs && s.procs[l].Adding? && s.procs[l].k < |s.procs[l].routes|
    case PutRule(l, _) => l in s.procs && s.procs[l].Chosen?
    case DropRule(l) => true
    case DropLink(l) => true
    case Foreign(_, _) => true
  }

  /** `RouteAdd` creates exclusively, and only on a link that exists. */
  predicate Adds(s: State, l: Link, table: Table, dst: Dst, fault: bool) {
    !fault && l in s.live && (table, dst) !in s.routes
  }

  function Begin(routes: seq<Dst>, tries: nat, table: Table): Pc {
    if routes == [] then Chosen(routes, table) else Adding(routes, tries, table, 0)
  }

  function NextRoute(routes: seq<Dst>, tries: nat, table: Table, k: nat): Pc {
    if k < |routes| then Adding(routes, tries, table, k) else Chosen(routes, table)
  }

  /** The ten attempts share one counter; after the last failure the call returns an error. */
  function Retry(routes: seq<Dst>, tries: nat): Pc {
    if tries < ATTEMPTS then Waiting(routes, tries) else GaveUp(routes)
  }

  /** Deleting a link deletes the routes through it. */
  function Flushed(routes: map<(Table, Dst), Link>, l: Link): map<(Table, Dst), Link> {
    map key | key in routes && routes[key] != l :: routes[key]
  }

  function Step(c: Config, s: State, a: Action): State
    requires Enabled(c, s, a)
  {
    match a
    case Arrive(l, order) => s.(live := s.live + {l}, procs := s.procs[l := Waiting(Sort(order), 0)])
    case ListV4(l, start) =>
      var p := s.procs[l];
      s.(procs := s.procs[l := Listed(p.routes, p.tries, start, RuleTables(s.rules) + s.foreign4)])
    case ListV6(l) =>
      var p := s.procs[l];
      s.(procs := s.procs[l := Looked(p.routes, p.tries, p.start, p.used + s.foreign6)])
    case Pick(l, table) => s.(procs := s.procs[l := Begin(s.procs[l].routes, s.procs[l].tries, table)])
    case ListFails(l) => s.(procs := s.procs[l := GaveUp(s.procs[l].routes)])
    case PutRoute(l, fault) =>
      var Adding(routes, tries, table, k) := s.procs[l];
      if Adds(s, l, table, routes[k], fault) then
        s.(routes := s.routes[(table, routes[k]) := l], procs := s.procs[l := NextRoute(routes, tries, table, k + 1)])
      else
        s.(procs := s.procs[l := Retry(routes, tries + 1)], faulted := if fault then s.faulted + {l} else s.faulted)
    case PutRule(l, fault) =>
      var Chosen(routes, table) := s.procs[l];
      if fault then s.(procs := s.procs[l := GaveUp(routes)], faulted := s.faulted + {l})
      else s.(rules := s.rules + {(l, table)}, procs := s.procs[l := Done(routes, table)])
    case DropRule(l) => s.(rules := set rule | rule in s.rules && rule.0 != l)
    case DropLink(l) => s.(live := s.live - {l}, routes := Flushed(s.routes, l))
    case Foreign(tables4, tables6) => s.(foreign4 := tables4, foreign6 := tables6)
  }

  ghost predicate Init(s: State) {
    s.live == {} && s.rules == {} && s.routes == map[] && s.procs == map[] && s.faulted == {}
  }

  ghost predicate Runs(c: Config, s: State, acts: seq<Action>, s': State)
    decreases |acts|
  {
    if acts == [] then s' == s
    else Enabled(c, s, acts[0]) && Runs(c, Step(c, s, acts[0]), acts[1..], s')
  }

  ghost predicate Reachable(c: Config, s: State) {
    exists s0, acts :: Init(s0) && Runs(c, s0, acts, s)
  }

  lemma {:induction false} RunsExtend(c: Config, s0: State, acts: seq<Action>, s: State, a: Action)
    requires Runs(c, s0, acts, s) && Enabled(c, s, a)
    ensures Runs(c, s0, acts + [a], Step(c, s, a))
    decreases |acts|
  {
    if acts == [] {
      assert acts + [a] == [a];
      assert Runs(c, Step(c, s, a), [], Step(c, s, a));
    } else {
      RunsExtend(c, Step(c, s0, acts[0]), acts[1..], s, a);
      assert (acts + [a])[1..] == acts[1..] + [a];
    }
  }

  lemma ReachStep(c: Config, s: State, a: Action)
    requires Reachable(c, s) && Enabled(c, s, a)
    ensures Reachable(c, Step(c, s, a))
  {
    var s0, acts :| Init(s0) && Runs(c, s0, acts, s);
    RunsExtend(c, s0, acts, s, a);
  }

  // ----- What every step keeps, whatever lists the callers bring -----

  /** The process added these routes, and they stay as long as its link. */
  ghost predicate OwnsUpTo(s: State, l: Link, routes: seq<Dst>, table: Table, k: nat)
    requires k <= |routes|
  {
    && (forall i, j | 0 <= i < j < k :: routes[i] != routes[j])
    && (l in s.live ==>
          forall j | 0 <= j < k :: (table, routes[j]) in s.routes && s.routes[(table, routes[j])] == l)
  }

  ghost predicate Owned(s: State, l: Link, pc: Pc) {
    match pc
    case Waiting(_, _) => true
    case Listed(_, _, _, _) => true
    case Looked(_, _, _, _) => true
    case Adding(routes, _, table, k) => k < |routes| && OwnsUpTo(s, l, routes, table, k)
    case Chosen(routes, table) => OwnsUpTo(s, l, routes, table, |routes|)
    case Done(routes, table) => OwnsUpTo(s, l, routes, table, |routes|)
    case GaveUp(_) => true
  }

  ghost predicate Progress(s: State) {
    forall l | l in s.procs :: Owned(s, l, s.procs[l])
  }

  ghost predicate FromMenu(c: Config, routes: seq<Dst>) {
    exists order :: order in c.menu && routes == Sort(order)
  }

  ghost predicate Sane(c: Config, s: State) {
    && (forall l | l in s.live :: l in s.procs)
    && (forall key | key in s.routes :: s.routes[key] in s.live)
    && (forall rule | rule in s.rules ::
          rule.0 in s.procs && s.procs[rule.0].Done? && s.procs[rule.0].table == rule.1)
    && (forall l | l in s.procs :: FromMenu(c, s.procs[l].routes))
    && Progress(s)
  }

  /** No step takes a route away from a live link. */
  lemma RoutesStay(c: Config, s: State, a: Action)
    requires Enabled(c, s, a)
    ensures
      var s' := Step(c, s, a);
      forall key | key in s.routes && s.routes[key] in s'.live :: key in s'.routes && s'.routes[key] == s.routes[key]
  {
  }

  lemma NewLinksAreNew(c: Config, s: State, a: Action)
    requires Sane(c, s) && Enabled(c, s, a)
    ensures forall l | l in Step(c, s, a).live && !a.Arrive? :: l in s.live
    ensures forall l | l in s.procs && l in Step(c, s, a).live :: l in s.live
    ensures forall l | l in s.procs :: l in Step(c, s, a).procs && (Mover(a) != Some(l) ==> Step(c, s, a).procs[l] == s.procs[l])
  {
  }

  function Mover(a: Action): Option<Link> {
    match a
    case Arrive(l, _) => Some(l)
    case ListV4(l, _) => Some(l)
    case ListV6(l) => Some(l)
    case Pick(l, _) => Some(l)
    case ListFails(l) => Some(l)
    case PutRoute(l, _) => Some(l)
    case PutRule(l, _) => Some(l)
    case _ => None
  }

  lemma OwnedStays(c: Config, s: State, a: Action, l: Link, pc: Pc)
    requires Sane(c, s) && Enabled(c, s, a) && l in s.procs && Owned(s, l, pc)
    ensures Owned(Step(c, s, a), l, pc)
  {
    RoutesStay(c, s, a);
    NewLinksAreNew(c, s, a);
  }

  lemma PutRouteOwns(c: Config, s: State, a: Action)
    requires Sane(c, s) && Enabled(c, s, a) && a.PutRoute?
    ensures Owned(Step(c, s, a), a.l, Step(c, s, a).procs[a.l])
  {
    var s' := Step(c, s, a);
    var Adding(routes, tries, table, k) := s.procs[a.l];
    assert Owned(s, a.l, s.procs[a.l]);
    if Adds(s, a.l, table, routes[k], a.fault) {
      assert OwnsUpTo(s', a.l, routes, table, k + 1);
    }
  }

  lemma MoverOwns(c: Config, s: State, a: Action)
    requires Sane(c, s) && Enabled(c, s, a) && Mover(a).Some?
    ensures Owned(Step(c, s, a), Mover(a).value, Step(c, s, a).procs[Mover(a).value])
  {
    if a.PutRoute? {
      PutRouteOwns(c, s, a);
    } else if !a.Arrive? {
      OwnedStays(c, s, a, Mover(a).value, s.procs[Mover(a).value]);
    }
  }

  lemma MoverFromMenu(c: Config, s: State, a: Action)
    requires Sane(c, s) && Enabled(c, s, a) && Mover(a).Some?
    ensures FromMenu(c, Step(c, s, a).procs[Mover(a).value].routes)
  {
    if !a.Arrive? { assert FromMenu(c, s.procs[Mover(a).value].routes); }
  }

  lemma ProgressStep(c: Config, s: State, a: Action, l: Link)
    requires Sane(c, s) && Enabled(c, s, a) && l in Step(c, s, a).procs
    ensures Owned(Step(c, s, a), l, Step(c, s, a).procs[l]) && FromMenu(c, Step(c, s, a).procs[l].routes)
  {
    if Mover(a) == Some(l) {
      MoverOwns(c, s, a);
      MoverFromMenu(c, s, a);
    } else {
      OthersStand(c, s, a, l);
      OwnedStays(c, s, a, l, s.procs[l]);
    }
  }

  lemma OthersStand(c: Config, s: State, a: Action, l: Link)
    requires Enabled(c, s, a) && l in Step(c, s, a).procs && Mover(a) != Some(l)
    ensures l in s.procs && Step(c, s, a).procs[l] == s.procs[l]
  {
  }

  lemma LinksStep(c: Config, s: State, a: Action)
    requires Sane(c, s) && Enabled(c, s, a)
    ensures forall l | l in Step(c, s, a).live :: l in Step(c, s, a).procs
    ensures forall key | key in Step(c, s, a).routes :: Step(c, s, a).routes[key] in Step(c, s, a).live
  {
  }

  lemma SaneStep(c: Config, s: State, a: Action)
    requires Sane(c, s) && Enabled(c, s, a)
    ensures Sane(c, Step(c, s, a))
  {
    LinksStep(c, s, a);
    RulesStep(c, s, a);
    forall l | l in Step(c, s, a).procs
      ensures Owned(Step(c, s, a), l, Step(c, s, a).procs[l]) && FromMenu(c, Step(c, s, a).procs[l].routes)
    {
      ProgressStep(c, s, a, l);
    }
  }

  lemma RulesStep(c: Config, s: State, a: Action)
    requires Sane(c, s) && Enabled(c, s, a)
    ensures
      forall rule | rule in Step(c, s, a).rules ::
        rule.0 in Step(c, s, a).procs && Step(c, s, a).procs[rule.0].Done? && Step(c, s, a).procs[rule.0].table == rule.1
  {
  }
}
