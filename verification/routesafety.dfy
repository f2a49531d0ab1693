/**
 * What route creation alone, without a lock, guarantees in every interleaving of `RouteClaim`, and
 * which callers it guarantees it to.
 */
module RouteSafety {
  import opened RouteOrder
  import opened RouteClaim

  /** All callers bring at least one destination, and the same one sorts first for all of them. */
  ghost predicate LeastIs(c: Config, first: Dst) {
    forall order | order in c.menu :: order != [] && Sort(order)[0] == first
  }

  ghost predicate SharedLeast(c: Config) {
    exists first :: LeastIs(c, first)
  }

  /** Callers with the same destinations, in any order, share their first one. */
  lemma SameSetSharesLeast(c: Config, order: seq<Dst>)
    requires order != []
    requires forall other | other in c.menu :: multiset(other) == multiset(order)
    ensures SharedLeast(c)
  {
    forall other | other in c.menu ensures other != [] && Sort(other)[0] == Sort(order)[0] {
      assert |multiset(other)| == |other| && |multiset(order)| == |order|;
      OrdersAgree(other, order);
    }
    assert LeastIs(c, Sort(order)[0]);
  }

  /** A table with any route has the first route, on the same link. */
  ghost predicate OneOwner(s: State, first: Dst) {
    forall t, x | (t, x) in s.routes :: (t, first) in s.routes && s.routes[(t, first)] == s.routes[(t, x)]
  }

  ghost predicate Among(x: Dst, routes: seq<Dst>, k: nat) {
    exists j :: 0 <= j < k <= |routes| && routes[j] == x
  }

  /** A table under construction holds what its process added so far, and nothing else. */
  ghost predicate OnlyMine(s: State, l: Link) {
    l in s.live && l in s.procs && s.procs[l].Adding? && 0 < s.procs[l].k ==>
      forall x | (s.procs[l].table, x) in s.routes :: Among(x, s.procs[l].routes, s.procs[l].k)
  }

  predicate InTable(pc: Pc, t: Table) {
    (pc.Adding? && pc.table == t && 0 < pc.k) || (pc.Chosen? && pc.table == t) || (pc.Done? && pc.table == t)
  }

  /** Unless a call failed for another reason, a link has routes in the table it works on only. */
  ghost predicate Tidy(s: State, l: Link) {
    l in s.procs && l !in s.faulted && Distinct(s.procs[l].routes) ==>
      forall key | key in s.routes && s.routes[key] == l :: InTable(s.procs[l], key.0)
  }

  ghost predicate Shared(c: Config, first: Dst, s: State) {
    && LeastIs(c, first)
    && Sane(c, s)
    && OneOwner(s, first)
    && (forall l :: OnlyMine(s, l))
    && (forall l :: Tidy(s, l))
  }

  lemma StartsWithFirst(c: Config, first: Dst, s: State, l: Link)
    requires LeastIs(c, first) && Sane(c, s) && l in s.procs
    ensures s.procs[l].routes != [] && s.procs[l].routes[0] == first
  {
    assert FromMenu(c, s.procs[l].routes);
  }

  /** Whoever adds to a table under construction is the process that constructs it. */
  lemma AdderOwnsTable(c: Config, first: Dst, s: State, l: Link, a: Action)
    requires Shared(c, first, s) && Enabled(c, s, a) && a.PutRoute?
    requires Adds(s, a.l, s.procs[a.l].table, s.procs[a.l].routes[s.procs[a.l].k], a.fault)
    requires l in s.live && l in s.procs && s.procs[l].Adding? && 0 < s.procs[l].k
    requires s.procs[l].table == s.procs[a.l].table
    ensures l == a.l
  {
    StartsWithFirst(c, first, s, l);
    StartsWithFirst(c, first, s, a.l);
    assert Owned(s, l, s.procs[l]) && Owned(s, a.l, s.procs[a.l]);
  }

  lemma PutRouteOneOwner(c: Config, first: Dst, s: State, a: Action)
    requires Shared(c, first, s) && Enabled(c, s, a) && a.PutRoute?
    ensures OneOwner(Step(c, s, a), first)
  {
    StartsWithFirst(c, first, s, a.l);
    assert Owned(s, a.l, s.procs[a.l]);
  }

  lemma OneOwnerStep(c: Config, first: Dst, s: State, a: Action)
    requires Shared(c, first, s) && Enabled(c, s, a)
    ensures OneOwner(Step(c, s, a), first)
  {
    if a.PutRoute? { PutRouteOneOwner(c, first, s, a); }
  }

  lemma PutRouteOnlyMine(c: Config, first: Dst, s: State, a: Action, l: Link)
    requires Shared(c, first, s) && Enabled(c, s, a) && a.PutRoute?
    ensures OnlyMine(Step(c, s, a), l)
  {
    var s', p := Step(c, s, a), s.procs[a.l];
    assert OnlyMine(s, l);
    if Adds(s, a.l, p.table, p.routes[p.k], a.fault) && l in s'.live && l in s'.procs && s'.procs[l].Adding? && 0 < s'.procs[l].k {
      if l == a.l {
        StartsWithFirst(c, first, s, l);
        forall x | (p.table, x) in s'.routes ensures Among(x, p.routes, p.k + 1) {
          if x == p.routes[p.k] {
          } else {
            assert Among(x, p.routes, p.k);
            var j :| 0 <= j < p.k && p.routes[j] == x;
            assert 0 <= j < p.k + 1;
          }
        }
      } else if s.procs[l].table == p.table {
        AdderOwnsTable(c, first, s, l, a);
      }
    }
  }

  /** Only adding a route advances a process in its table. */
  lemma OtherOnlyMine(c: Config, s: State, a: Action, l: Link)
    requires Sane(c, s) && OnlyMine(s, l) && Enabled(c, s, a) && !a.PutRoute?
    ensures OnlyMine(Step(c, s, a), l)
  {
    NewLinksAreNew(c, s, a);
    OthersAddNoRoute(c, s, a);
  }

  lemma OnlyMineStep(c: Config, first: Dst, s: State, a: Action, l: Link)
    requires Shared(c, first, s) && Enabled(c, s, a)
    ensures OnlyMine(Step(c, s, a), l)
  {
    assert OnlyMine(s, l);
    if a.PutRoute? {
      PutRouteOnlyMine(c, first, s, a, l);
    } else {
      OtherOnlyMine(c, s, a, l);
    }
  }

  /** A route collides only with the first route of whoever came earlier. */
  lemma LaterRoutesAreFree(c: Config, first: Dst, s: State, l: Link)
    requires Shared(c, first, s) && l in s.live && l in s.procs && s.procs[l].Adding? && 0 < s.procs[l].k
    requires Distinct(s.procs[l].routes)
    ensures (s.procs[l].table, s.procs[l].routes[s.procs[l].k]) !in s.routes
  {
    var p := s.procs[l];
    assert OnlyMine(s, l) && Owned(s, l, p);
    assert !Among(p.routes[p.k], p.routes, p.k);
  }

  /** Without faults, only the first route of a list without repetitions can fail on a live link. */
  lemma FailsAtFirst(c: Config, first: Dst, s: State, l: Link)
    requires Shared(c, first, s) && l in s.live && l in s.procs && s.procs[l].Adding?
    requires Distinct(s.procs[l].routes) && s.procs[l].k < |s.procs[l].routes|
    requires !Adds(s, l, s.procs[l].table, s.procs[l].routes[s.procs[l].k], false)
    ensures s.procs[l].k == 0
  {
    if 0 < s.procs[l].k { LaterRoutesAreFree(c, first, s, l); }
  }

  lemma PutRouteTidy(c: Config, first: Dst, s: State, a: Action)
    requires Shared(c, first, s) && Enabled(c, s, a) && a.PutRoute?
    ensures Tidy(Step(c, s, a), a.l)
  {
    var p := s.procs[a.l];
    if Adds(s, a.l, p.table, p.routes[p.k], a.fault) {
      AddedTidy(c, s, a);
    } else {
      assert Tidy(s, a.l);
      if !a.fault && a.l in s.live && Distinct(p.routes) { FailsAtFirst(c, first, s, a.l); }
    }
  }

  lemma AddedTidy(c: Config, s: State, a: Action)
    requires a.PutRoute? && Enabled(c, s, a) && Tidy(s, a.l)
    requires Adds(s, a.l, s.procs[a.l].table, s.procs[a.l].routes[s.procs[a.l].k], a.fault)
    ensures Tidy(Step(c, s, a), a.l)
  {
  }

  lemma OthersAddNoRoute(c: Config, s: State, a: Action)
    requires Enabled(c, s, a) && !a.PutRoute?
    ensures forall key | key in Step(c, s, a).routes :: key in s.routes && Step(c, s, a).routes[key] == s.routes[key]
  {
  }

  lemma StaysInTable(c: Config, s: State, a: Action, l: Link, t: Table)
    requires Enabled(c, s, a) && !a.PutRoute? && l in s.procs && InTable(s.procs[l], t)
    ensures InTable(Step(c, s, a).procs[l], t) || l in Step(c, s, a).faulted
    ensures Step(c, s, a).procs[l].routes == s.procs[l].routes && s.faulted <= Step(c, s, a).faulted
  {
  }

  lemma OtherTidy(c: Config, s: State, a: Action, l: Link)
    requires Sane(c, s) && Tidy(s, l) && Enabled(c, s, a) && !a.PutRoute? && l in s.procs
    ensures Tidy(Step(c, s, a), l)
  {
    var s' := Step(c, s, a);
    OthersAddNoRoute(c, s, a);
    SameRoutes(c, s, a, l);
    if l !in s'.faulted && Distinct(s'.procs[l].routes) {
      forall key | key in s'.routes && s'.routes[key] == l ensures InTable(s'.procs[l], key.0) {
        StaysInTable(c, s, a, l, key.0);
      }
    }
  }

  lemma SameRoutes(c: Config, s: State, a: Action, l: Link)
    requires Enabled(c, s, a) && l in s.procs
    ensures l in Step(c, s, a).procs && Step(c, s, a).procs[l].routes == s.procs[l].routes
    ensures s.faulted <= Step(c, s, a).faulted
  {
  }

  lemma TidyStep(c: Config, first: Dst, s: State, a: Action, l: Link)
    requires Shared(c, first, s) && Enabled(c, s, a)
    ensures Tidy(Step(c, s, a), l)
  {
    assert Tidy(s, l);
    if a.PutRoute? {
      if a.l == l { PutRouteTidy(c, first, s, a); } else { PutElsewhereTidy(c, s, a, l); }
    } else if l in s.procs {
      OtherTidy(c, s, a, l);
    } else {
      NewcomerTidy(c, s, a, l);
    }
  }

  lemma PutElsewhereTidy(c: Config, s: State, a: Action, l: Link)
    requires Tidy(s, l) && Enabled(c, s, a) && a.PutRoute? && a.l != l
    ensures Tidy(Step(c, s, a), l)
  {
  }

  lemma NewcomerTidy(c: Config, s: State, a: Action, l: Link)
    requires Sane(c, s) && Enabled(c, s, a) && !a.PutRoute? && l !in s.procs
    ensures Tidy(Step(c, s, a), l)
  {
    OthersAddNoRoute(c, s, a);
  }

  lemma SharedStep(c: Config, first: Dst, s: State, a: Action)
    requires Shared(c, first, s) && Enabled(c, s, a)
    ensures Shared(c, first, Step(c, s, a))
  {
    SaneStep(c, s, a);
    OneOwnerStep(c, first, s, a);
    forall l ensures OnlyMine(Step(c, s, a), l) && Tidy(Step(c, s, a), l) {
      OnlyMineStep(c, first, s, a, l);
      TidyStep(c, first, s, a, l);
    }
  }

  lemma {:induction false} RunShared(c: Config, first: Dst, s: State, acts: seq<Action>, s': State)
    requires Shared(c, first, s) && Runs(c, s, acts, s')
    ensures Shared(c, first, s')
    decreases |acts|
  {
    if acts != [] {
      SharedStep(c, first, s, acts[0]);
      RunShared(c, first, Step(c, s, acts[0]), acts[1..], s');
    }
  }

  lemma {:induction false} RunSane(c: Config, s: State, acts: seq<Action>, s': State)
    requires Sane(c, s) && Runs(c, s, acts, s')
    ensures Sane(c, s')
    decreases |acts|
  {
    if acts != [] {
      SaneStep(c, s, acts[0]);
      RunSane(c, Step(c, s, acts[0]), acts[1..], s');
    }
  }

  lemma ReachableShared(c: Config, first: Dst, s: State)
    requires LeastIs(c, first) && Reachable(c, s)
    ensures Shared(c, first, s)
  {
    var s0, acts :| Init(s0) && Runs(c, s0, acts, s);
    RunShared(c, first, s0, acts, s);
  }

  lemma ReachableSane(c: Config, s: State)
    requires Reachable(c, s)
    ensures Sane(c, s)
  {
    var s0, acts :| Init(s0) && Runs(c, s0, acts, s);
    RunSane(c, s0, acts, s);
  }

  // ----- The guarantees -----

  ghost predicate OneVethPerTable(s: State) {
    forall t, x, y | (t, x) in s.routes && (t, y) in s.routes :: s.routes[(t, x)] == s.routes[(t, y)]
  }

  ghost predicate OneRulePerTable(s: State) {
    forall l, l', t | (l, t) in s.rules && (l', t) in s.rules && l in s.live && l' in s.live :: l == l'
  }

  /** The rule of a live veth names a table with all of its routes. */
  ghost predicate RulesAreComplete(s: State) {
    forall l, t | (l, t) in s.rules && l in s.live ::
      l in s.procs && forall x | x in s.procs[l].routes :: (t, x) in s.routes && s.routes[(t, x)] == l
  }

  ghost predicate TablesExclusive(s: State) {
    OneVethPerTable(s) && OneRulePerTable(s) && RulesAreComplete(s)
  }

  /** Route tables are never shared, and rules never name a table that is not fully set up. */
  lemma TablesAreExclusive(c: Config, s: State)
    requires SharedLeast(c) && Reachable(c, s)
    ensures TablesExclusive(s)
  {
    var first :| LeastIs(c, first);
    ReachableShared(c, first, s);
    forall l, t | (l, t) in s.rules && l in s.live ensures RuleOwns(s, l, t, first) {
      RuleOwnsTable(c, first, s, l, t);
    }
  }

  ghost predicate RuleOwns(s: State, l: Link, t: Table, first: Dst) {
    && l in s.procs
    && (forall x | x in s.procs[l].routes :: (t, x) in s.routes && s.routes[(t, x)] == l)
    && (t, first) in s.routes && s.routes[(t, first)] == l
  }

  lemma RuleOwnsTable(c: Config, first: Dst, s: State, l: Link, t: Table)
    requires Shared(c, first, s) && (l, t) in s.rules && l in s.live
    ensures RuleOwns(s, l, t, first)
  {
    assert (l, t).0 in s.procs;
    StartsWithFirst(c, first, s, l);
    assert Owned(s, l, s.procs[l]);
  }

  /** A live process that lost a race has nothing to clean up, and lost it at its first route. */
  lemma LosersLeaveNothing(c: Config, s: State, l: Link)
    requires SharedLeast(c) && Reachable(c, s)
    requires l in s.live && l in s.procs && l !in s.faulted && Distinct(s.procs[l].routes)
    ensures s.procs[l].Waiting? || s.procs[l].Listed? || s.procs[l].Looked? || s.procs[l].GaveUp? ==>
      forall key | key in s.routes :: s.routes[key] != l
    ensures s.procs[l].Adding? && 0 < s.procs[l].k ==>
      s.procs[l].k < |s.procs[l].routes| && Adds(s, l, s.procs[l].table, s.procs[l].routes[s.procs[l].k], false)
  {
    var first :| LeastIs(c, first);
    ReachableShared(c, first, s);
    assert Tidy(s, l) && Owned(s, l, s.procs[l]);
    if s.procs[l].Adding? && 0 < s.procs[l].k { LaterRoutesAreFree(c, first, s, l); }
  }

  // ----- Teardown -----

  /** Of a process that is over, nothing is left: no link, no rule and no route. */
  ghost predicate TornDown(s: State, l: Link) {
    && l in s.procs && (s.procs[l].Done? || s.procs[l].GaveUp?)
    && l !in s.live
    && (forall t :: (l, t) !in s.rules)
    && (forall key | key in s.routes :: s.routes[key] != l)
  }

  /** The DEL command removes the rule and then the link of its pod, and nothing of any other. */
  lemma TeardownLeavesNothing(c: Config, s: State, l: Link)
    requires l in s.procs && (s.procs[l].Done? || s.procs[l].GaveUp?)
    ensures
      var s' := Step(c, Step(c, s, DropRule(l)), DropLink(l));
      && TornDown(s', l)
      && s'.live == s.live - {l} && s'.procs == s.procs
      && (forall rule: (Link, Table) | rule.0 != l :: rule in s'.rules <==> rule in s.rules)
      && (forall key :: key in s'.routes <==> key in s.routes && s.routes[key] != l)
      && (forall key | key in s'.routes :: s'.routes[key] == s.routes[key])
  {
  }

  /** After its teardown a process never leaves anything behind again. */
  lemma {:induction false} TornDownForGood(c: Config, s: State, acts: seq<Action>, s': State, l: Link)
    requires TornDown(s, l) && Runs(c, s, acts, s')
    ensures TornDown(s', l)
    decreases |acts|
  {
    if acts != [] {
      TornDownStep(c, s, acts[0], l);
      TornDownForGood(c, Step(c, s, acts[0]), acts[1..], s', l);
    }
  }

  lemma TornDownStep(c: Config, s: State, a: Action, l: Link)
    requires TornDown(s, l) && Enabled(c, s, a)
    ensures TornDown(Step(c, s, a), l)
  {
  }

  lemma DoneIsDistinct(c: Config, s: State, l: Link)
    requires Sane(c, s) && l in s.procs && s.procs[l].Done?
    ensures Distinct(s.procs[l].routes)
  {
    assert Owned(s, l, s.procs[l]);
    OwnedIsDistinct(s, l, s.procs[l].routes, s.procs[l].table);
  }

  lemma OwnedIsDistinct(s: State, l: Link, routes: seq<Dst>, table: Table)
    requires OwnsUpTo(s, l, routes, table, |routes|)
    ensures Distinct(routes)
  {
  }

  /** A list that names a destination twice never gets a table: the second route finds the first. */
  lemma ClaimsAreDistinct(c: Config, s: State, l: Link, order: seq<Dst>)
    requires Reachable(c, s) && l in s.procs && s.procs[l].Done? && s.procs[l].routes == Sort(order)
    ensures Distinct(order)
  {
    ReachableSane(c, s);
    DoneIsDistinct(c, s, l);
    SortKeepsDistinct(order);
  }
}
