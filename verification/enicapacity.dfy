/**
 * Capacity over whole runs: the requests of `AwsAllocate` and `AwsInterface` never take a node past
 * its limits.
 *
 * A node is the list of its ENIs, each given by how many addresses it has.  Metadata is taken to be
 * exact and the limits constant; the lock keeps one request from overlapping the next.  EC2 may grant
 * less than was asked, and addresses and ENIs come and go at any time.
 */
module EniCapacity {
  import opened Environment
  import opened AwsAllocate
  import opened AwsInterface

  type Node = seq<nat>

  datatype Action =
    | AllocateOn(eni: nat, batchSize: int, granted: nat)
    | CreateEni(batchSize: int, granted: nat)
    | Unassign(eni: nat)
    | Remove(eni: nat)

  /** A request: how many addresses there were before, how many were asked for, how many may be. */
  datatype Request = Request(have: nat, asked: int)

  /** What the code asks for; releases ask for nothing. */
  function Asked(c: Limits, n: Node, a: Action): (r: seq<Request>)
    requires Enabled(c, n, a)
  {
    match a
    case AllocateOn(i, batchSize, _) => [Request(n[i], RequestCount(c.ipv4, n[i], batchSize))]
    case CreateEni(batchSize, _) => [Request(0, NewCount(c.ipv4, batchSize))]
    case Unassign(_) => []
    case Remove(_) => []
  }

  /** The guards of the code, and EC2 granting at most what was asked for. */
  predicate Enabled(c: Limits, n: Node, a: Action) {
    match a
    case AllocateOn(i, batchSize, granted) =>
      i < |n| && n[i] < c.ipv4 && 0 <= batchSize && granted <= RequestCount(c.ipv4, n[i], batchSize)
    case CreateEni(batchSize, granted) => |n| < c.adapters && 0 <= batchSize && granted <= NewCount(c.ipv4, batchSize)
    case Unassign(i) => i < |n| && 0 < n[i]
    case Remove(i) => i < |n|
  }

  function Step(c: Limits, n: Node, a: Action): Node
    requires Enabled(c, n, a)
  {
    match a
    case AllocateOn(i, _, granted) => n[i := n[i] + granted]
    case CreateEni(_, granted) => n + [granted]
    case Unassign(i) => n[i := n[i] - 1]
    case Remove(i) => n[..i] + n[i + 1..]
  }

  ghost predicate Runs(c: Limits, n: Node, actions: seq<Action>)
    decreases |actions|
  {
    actions == [] || (Enabled(c, n, actions[0]) && Runs(c, Step(c, n, actions[0]), actions[1..]))
  }

  function After(c: Limits, n: Node, actions: seq<Action>): Node
    requires Runs(c, n, actions)
    decreases |actions|
  {
    if actions == [] then n else After(c, Step(c, n, actions[0]), actions[1..])
  }

  function AllAsked(c: Limits, n: Node, actions: seq<Action>): seq<Request>
    requires Runs(c, n, actions)
    decreases |actions|
  {
    if actions == [] then [] else Asked(c, n, actions[0]) + AllAsked(c, Step(c, n, actions[0]), actions[1..])
  }

  ghost predicate WithinLimits(c: Limits, n: Node) {
    |n| <= c.adapters && forall i | 0 <= i < |n| :: n[i] <= c.ipv4
  }

  predicate Fits(c: Limits, r: Request) {
    1 <= r.asked <= c.ipv4 - r.have
  }

  lemma StepKeepsLimits(c: Limits, n: Node, a: Action)
    requires 1 <= c.ipv4 && WithinLimits(c, n) && Enabled(c, n, a)
    ensures WithinLimits(c, Step(c, n, a))
    ensures forall r | r in Asked(c, n, a) :: Fits(c, r)
  {
    match a
    case AllocateOn(i, batchSize, _) => RequestFits(c.ipv4, n[i], batchSize);
    case CreateEni(batchSize, _) => NewEniFits(c.ipv4, batchSize);
    case Unassign(_) =>
    case Remove(_) =>
  }

  /** In every run, every request fits and no limit is ever exceeded. */
  lemma {:induction false} LimitsHold(c: Limits, n: Node, actions: seq<Action>)
    requires 1 <= c.ipv4 && WithinLimits(c, n) && Runs(c, n, actions)
    ensures WithinLimits(c, After(c, n, actions))
    ensures forall r | r in AllAsked(c, n, actions) :: Fits(c, r)
    decreases |actions|
  {
    if actions != [] {
      StepKeepsLimits(c, n, actions[0]);
      LimitsHold(c, Step(c, n, actions[0]), actions[1..]);
    }
  }

  // ----- Accounting -----

  /** The number of addresses on the node. */
  function Total(n: Node): nat {
    if n == [] then 0 else Total(n[..|n| - 1]) + n[|n| - 1]
  }

  lemma {:induction false} TotalConcat(n: Node, m: Node)
    ensures Total(n + m) == Total(n) + Total(m)
    decreases |m|
  {
    if m == [] {
      assert n + m == n;
    } else {
      assert (n + m)[..|n + m| - 1] == n + m[..|m| - 1];
      TotalConcat(n, m[..|m| - 1]);
    }
  }

  lemma TotalSplit(n: Node, i: nat)
    requires i < |n|
    ensures Total(n) == Total(n[..i]) + n[i] + Total(n[i + 1..])
  {
    var front, one, rest := n[..i], [n[i]], n[i + 1..];
    assert n == (front + one) + rest;
    TotalConcat(front + one, rest);
    TotalConcat(front, one);
    TotalOne(n[i]);
  }

  lemma TotalOne(v: nat)
    ensures Total([v]) == v
  {
    assert [v][..0] == [];
  }

  /** What is granted arrives on the node, what is given back leaves it, and no other ENI changes. */
  lemma StepCounts(c: Limits, n: Node, a: Action)
    requires Enabled(c, n, a)
    ensures a.AllocateOn? ==>
      var n' := Step(c, n, a);
      |n'| == |n| && Total(n') == Total(n) + a.granted && n'[a.eni] == n[a.eni] + a.granted
    ensures a.CreateEni? ==> Step(c, n, a) == n + [a.granted] && Total(Step(c, n, a)) == Total(n) + a.granted
    ensures a.Unassign? ==>
      var n' := Step(c, n, a);
      |n'| == |n| && Total(n') == Total(n) - 1 && n'[a.eni] == n[a.eni] - 1
    ensures a.Remove? ==> |Step(c, n, a)| == |n| - 1 && Total(Step(c, n, a)) == Total(n) - n[a.eni]
  {
    match a
    case AllocateOn(i, _, granted) => SameElsewhere(n, i, n[i] + granted);
    case CreateEni(_, granted) => assert (n + [granted])[..|n|] == n;
    case Unassign(i) => SameElsewhere(n, i, n[i] - 1);
    case Remove(i) =>
      TotalSplit(n, i);
      TotalConcat(n[..i], n[i + 1..]);
  }

  lemma SameElsewhere(n: Node, i: nat, v: nat)
    requires i < |n|
    ensures Total(n[i := v]) == Total(n) - n[i] + v
  {
    TotalSplit(n, i);
    TotalSplit(n[i := v], i);
    assert n[i := v][..i] == n[..i] && n[i := v][i + 1..] == n[i + 1..];
  }
}
