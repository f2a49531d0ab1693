/**
 * The guarantees of `RouteSafety` hold for no other callers: lists whose first destinations differ
 * can always be interleaved into one table, and a list can be claimed exactly when it names no
 * destination twice.
 */
module RouteTightness {
  import opened RouteOrder
  import opened RouteClaim
  import RouteSafety

  /** Any property of states that holds initially and is kept by every step. */
  ghost predicate Closed(c: Config, reached: State -> bool) {
    && (forall s | Init(s) :: reached(s))
    && (forall s, a {:trigger Step(c, s, a)} | reached(s) && Enabled(c, s, a) :: reached(Step(c, s, a)))
  }

  lemma ReachableClosed(c: Config)
    ensures Closed(c, s => Reachable(c, s))
  {
    forall s | Init(s) ensures Reachable(c, s) {
      assert Runs(c, s, [], s);
    }
    forall s, a | Reachable(c, s) && Enabled(c, s, a) ensures Reachable(c, Step(c, s, a)) {
      ReachStep(c, s, a);
    }
  }

  const EMPTY := State({}, {}, {}, {}, map[], map[], {})

  lemma Take(c: Config, reached: State -> bool, s: State, a: Action, s': State)
    requires Closed(c, reached) && reached(s) && Enabled(c, s, a) && Step(c, s, a) == s'
    ensures reached(s')
  {
  }

  /** A newcomer is about to add its first route to the first table, which no rule names yet. */
  function Settled(c: Config, s: State, l: Link, order: seq<Dst>): State {
    s.(live := s.live + {l}, procs := s.procs[l := Begin(Sort(order), 0, c.tableStart)])
  }

  lemma Settle(c: Config, reached: State -> bool, s: State, l: Link, order: seq<Dst>)
    requires Closed(c, reached) && reached(s) && c.tableStart < MAX_TABLE
    requires s.rules == {} && s.foreign4 == {} && s.foreign6 == {}
    requires l !in s.procs && l !in s.live && order in c.menu
    ensures reached(Settled(c, s, l, order))
  {
    var routes := Sort(order);
    var s1 := s.(live := s.live + {l}, procs := s.procs[l := Waiting(routes, 0)]);
    Take(c, reached, s, Arrive(l, order), s1);
    var s2 := s1.(procs := s.procs[l := Listed(routes, 0, c.tableStart, {})]);
    assert RuleTables(s1.rules) + s1.foreign4 == {};
    assert s1.procs[l := Listed(routes, 0, c.tableStart, {})] == s2.procs;
    Take(c, reached, s1, ListV4(l, c.tableStart), s2);
    SettleLook(c, reached, s2, l, routes);
    var s3 := s2.(procs := s2.procs[l := Looked(routes, 0, c.tableStart, {})]);
    SettlePick(c, reached, s3, l, routes);
    assert s3.procs[l := Begin(routes, 0, c.tableStart)] == Settled(c, s, l, order).procs;
  }

  lemma SettleLook(c: Config, reached: State -> bool, s: State, l: Link, routes: seq<Dst>)
    requires Closed(c, reached) && reached(s) && s.foreign6 == {}
    requires l in s.procs && s.procs[l] == Listed(routes, 0, c.tableStart, {})
    ensures reached(s.(procs := s.procs[l := Looked(routes, 0, c.tableStart, {})]))
  {
    assert s.procs[l].used + s.foreign6 == {};
    Take(c, reached, s, ListV6(l), s.(procs := s.procs[l := Looked(routes, 0, c.tableStart, {})]));
  }

  lemma SettlePick(c: Config, reached: State -> bool, s: State, l: Link, routes: seq<Dst>)
    requires Closed(c, reached) && reached(s) && c.tableStart < MAX_TABLE
    requires l in s.procs && s.procs[l] == Looked(routes, 0, c.tableStart, {})
    ensures reached(s.(procs := s.procs[l := Begin(routes, 0, c.tableStart)]))
  {
    Take(c, reached, s, Pick(l, c.tableStart), s.(procs := s.procs[l := Begin(routes, 0, c.tableStart)]));
  }

  // ----- Lists with different first destinations mix -----

  lemma AddFirst(c: Config, reached: State -> bool, s: State, l: Link, routes: seq<Dst>)
    requires Closed(c, reached) && reached(s)
    requires l in s.live && l in s.procs && routes != [] && s.procs[l] == Adding(routes, 0, c.tableStart, 0)
    requires (c.tableStart, routes[0]) !in s.routes
    ensures reached(s.(routes := s.routes[(c.tableStart, routes[0]) := l],
                       procs := s.procs[l := NextRoute(routes, 0, c.tableStart, 1)]))
  {
    Take(c, reached, s, PutRoute(l, false),
         s.(routes := s.routes[(c.tableStart, routes[0]) := l],
            procs := s.procs[l := NextRoute(routes, 0, c.tableStart, 1)]));
  }

  lemma DifferentFirstsMix(c: Config, reached: State -> bool, o: seq<Dst>, o': seq<Dst>) returns (s: State)
    requires Closed(c, reached) && c.tableStart < MAX_TABLE
    requires o in c.menu && o' in c.menu && o != [] && o' != [] && Sort(o)[0] != Sort(o')[0]
    ensures reached(s) && !RouteSafety.OneVethPerTable(s)
  {
    var t, first, first' := c.tableStart, Sort(o)[0], Sort(o')[0];
    Settle(c, reached, EMPTY, 0, o);
    s := Settled(c, EMPTY, 0, o);
    AddFirst(c, reached, s, 0, Sort(o));
    s := s.(routes := s.routes[(t, first) := 0], procs := s.procs[0 := NextRoute(Sort(o), 0, t, 1)]);
    Settle(c, reached, s, 1, o');
    s := Settled(c, s, 1, o');
    AddFirst(c, reached, s, 1, Sort(o'));
    s := s.(routes := s.routes[(t, first') := 1], procs := s.procs[1 := NextRoute(Sort(o'), 0, t, 1)]);
    assert s.routes[(t, first)] == 0 && s.routes[(t, first')] == 1;
  }

  // ----- Callers without destinations share a table -----

  lemma AddRule(c: Config, reached: State -> bool, s: State, l: Link, routes: seq<Dst>)
    requires Closed(c, reached) && reached(s) && l in s.procs && s.procs[l] == Chosen(routes, c.tableStart)
    ensures reached(s.(rules := s.rules + {(l, c.tableStart)}, procs := s.procs[l := Done(routes, c.tableStart)]))
  {
    Take(c, reached, s, PutRule(l, false),
         s.(rules := s.rules + {(l, c.tableStart)}, procs := s.procs[l := Done(routes, c.tableStart)]));
  }

  lemma EmptyListsShare(c: Config, reached: State -> bool) returns (s: State)
    requires Closed(c, reached) && c.tableStart < MAX_TABLE && [] in c.menu
    ensures reached(s) && !RouteSafety.OneRulePerTable(s)
  {
    var t := c.tableStart;
    Settle(c, reached, EMPTY, 0, []);
    s := Settled(c, EMPTY, 0, []);
    Settle(c, reached, s, 1, []);
    s := Settled(c, s, 1, []);
    AddRule(c, reached, s, 0, []);
    s := s.(rules := s.rules + {(0, t)}, procs := s.procs[0 := Done([], t)]);
    AddRule(c, reached, s, 1, []);
    s := s.(rules := s.rules + {(1, t)}, procs := s.procs[1 := Done([], t)]);
    assert (0, t) in s.rules && (1, t) in s.rules;
  }

  ghost predicate AlwaysExclusive(c: Config) {
    forall s | Reachable(c, s) :: RouteSafety.TablesExclusive(s)
  }

  /** Sorted exclusive creation keeps tables apart exactly for callers that share their least destination. */
  lemma ExclusiveIff(c: Config)
    requires c.tableStart < MAX_TABLE
    ensures AlwaysExclusive(c) <==> RouteSafety.SharedLeast(c)
  {
    if RouteSafety.SharedLeast(c) {
      forall s | Reachable(c, s) ensures RouteSafety.TablesExclusive(s) { RouteSafety.TablesAreExclusive(c, s); }
    } else {
      ReachableClosed(c);
      if [] in c.menu {
        var s := EmptyListsShare(c, s => Reachable(c, s));
      } else {
        var o, o' := TwoFirsts(c);
        var s := DifferentFirstsMix(c, s => Reachable(c, s), o, o');
      }
    }
  }

  lemma TwoFirsts(c: Config) returns (o: seq<Dst>, o': seq<Dst>)
    requires !RouteSafety.SharedLeast(c) && [] !in c.menu
    ensures o in c.menu && o' in c.menu && o != [] && o' != [] && Sort(o)[0] != Sort(o')[0]
  {
    assert !RouteSafety.LeastIs(c, "");
    o :| o in c.menu;
    assert !RouteSafety.LeastIs(c, Sort(o)[0]);
    o' :| o' in c.menu && !(o' != [] && Sort(o')[0] == Sort(o)[0]);
  }

  // ----- Which lists can be claimed at all -----

  ghost predicate Claimable(c: Config, order: seq<Dst>) {
    exists s, l :: Reachable(c, s) && l in s.procs && s.procs[l].Done? && s.procs[l].routes == Sort(order)
  }

  /** The first `k` routes of an undisturbed process. */
  function Added(t: Table, routes: seq<Dst>, k: nat): (r: map<(Table, Dst), Link>)
    requires k <= |routes|
    ensures forall x | (t, x) in r :: exists j :: 0 <= j < k && routes[j] == x
  {
    if k == 0 then map[] else Added(t, routes, k - 1)[(t, routes[k - 1]) := 0]
  }

  function Alone(c: Config, routes: seq<Dst>, k: nat): State
    requires k <= |routes|
  {
    State({0}, {}, {}, {}, Added(c.tableStart, routes, k), map[0 := NextRoute(routes, 0, c.tableStart, k)], {})
  }

  lemma AloneStep(c: Config, routes: seq<Dst>, k: nat)
    requires Distinct(routes) && k < |routes|
    ensures Enabled(c, Alone(c, routes, k), PutRoute(0, false))
    ensures Step(c, Alone(c, routes, k), PutRoute(0, false)) == Alone(c, routes, k + 1)
  {
    var s, t := Alone(c, routes, k), c.tableStart;
    assert (t, routes[k]) !in s.routes;
    assert s.procs[0 := NextRoute(routes, 0, t, k + 1)] == map[0 := NextRoute(routes, 0, t, k + 1)];
  }

  lemma {:induction false} AloneAdds(c: Config, reached: State -> bool, routes: seq<Dst>, k: nat)
    requires Closed(c, reached) && Distinct(routes) && k <= |routes| && reached(Alone(c, routes, k))
    ensures reached(Alone(c, routes, |routes|))
    decreases |routes| - k
  {
    if k < |routes| {
      AloneStep(c, routes, k);
      Take(c, reached, Alone(c, routes, k), PutRoute(0, false), Alone(c, routes, k + 1));
      AloneAdds(c, reached, routes, k + 1);
    }
  }

  lemma AloneRun(c: Config, reached: State -> bool, order: seq<Dst>) returns (s: State)
    requires Closed(c, reached) && c.tableStart < MAX_TABLE && order in c.menu && Distinct(order)
    ensures reached(s) && 0 in s.procs && s.procs[0] == Done(Sort(order), c.tableStart)
  {
    var routes := Sort(order);
    SortKeepsDistinct(order);
    Settle(c, reached, EMPTY, 0, order);
    assert Settled(c, EMPTY, 0, order) == Alone(c, routes, 0);
    AloneAdds(c, reached, routes, 0);
    s := Alone(c, routes, |routes|);
    AddRule(c, reached, s, 0, routes);
    s := s.(rules := s.rules + {(0, c.tableStart)}, procs := s.procs[0 := Done(routes, c.tableStart)]);
  }

  lemma AloneClaims(c: Config, order: seq<Dst>)
    requires c.tableStart < MAX_TABLE && order in c.menu && Distinct(order)
    ensures Claimable(c, order)
  {
    ReachableClosed(c);
    var s := AloneRun(c, s => Reachable(c, s), order);
    assert Reachable(c, s) && 0 in s.procs;
  }

  /** A list of destinations can ever get a table if and only if it names none of them twice. */
  lemma ClaimableIff(c: Config, order: seq<Dst>)
    requires c.tableStart < MAX_TABLE && order in c.menu
    ensures Claimable(c, order) <==> Distinct(order)
  {
    if Claimable(c, order) {
      var s, l :| Reachable(c, s) && l in s.procs && s.procs[l].Done? && s.procs[l].routes == Sort(order);
      RouteSafety.ClaimsAreDistinct(c, s, l, order);
    }
    if Distinct(order) { AloneClaims(c, order); }
  }
}
