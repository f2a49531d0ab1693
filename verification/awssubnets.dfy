/**
 * `aws/subnets.go` and the choices made with it: on which interface to allocate an address
 * (`aws/allocate.go:119-146`) and in which subnet to create an interface (`aws/interface.go:190-211`).
 */
module AwsSubnets {
  import opened Wrap
  import opened Environment

  /** `SubnetsByAvailableAddressCount`: most available addresses first. */
  ghost predicate Descending(s: seq<Subnet>) {
    forall i, j | 0 <= i < j < |s| :: s[i].available >= s[j].available
  }

  /** The first `n` but position `j` descending, and `s[j]` above everything after it. */
  ghost predicate DescendingBut(s: seq<Subnet>, n: nat, j: nat)
    requires j < n <= |s|
  {
    && (forall p, q | 0 <= p < q < n && p != j && q != j :: s[p].available >= s[q].available)
    && (forall q | j < q < n :: s[j].available >= s[q].available)
  }

  lemma SwapKeeps(s: seq<Subnet>, n: nat, j: nat)
    requires 0 < j < n <= |s| && DescendingBut(s, n, j) && s[j].available > s[j - 1].available
    ensures
      var t := s[j := s[j - 1]][j - 1 := s[j]];
      DescendingBut(t, n, j - 1) && multiset(t) == multiset(s)
  {
  }

  lemma Begins(s: seq<Subnet>, i: nat)
    requires i < |s| && Descending(s[..i])
    ensures DescendingBut(s, i + 1, i)
  {
    forall p, q | 0 <= p < q < i ensures s[p].available >= s[q].available {
      assert s[..i][p] == s[p] && s[..i][q] == s[q];
    }
  }

  lemma Settles(s: seq<Subnet>, n: nat, j: nat)
    requires j < n <= |s| && DescendingBut(s, n, j)
    requires 0 < j ==> s[j].available <= s[j - 1].available
    ensures Descending(s[..n])
  {
    forall p, q | 0 <= p < q < n ensures s[p].available >= s[q].available {
      if q == j && p != j - 1 { assert s[p].available >= s[j - 1].available; }
    }
  }

  /** One round of an insertion sort: swaps `a[i]` down to its place among the `i` before it. */
  method SwapDown(a: array<Subnet>, i: nat)
    requires i < a.Length && Descending(a[..i])
    modifies a
    ensures Descending(a[..i + 1])
    ensures multiset(a[..]) == multiset(old(a[..]))
  {
    var j := i;
    ghost var s := a[..];
    Begins(s, i);
    while 0 < j && a[j].available > a[j - 1].available
      invariant 0 <= j <= i && s == a[..]
      invariant DescendingBut(s, i + 1, j)
      invariant multiset(s) == multiset(old(a[..]))
    {
      SwapKeeps(s, i + 1, j);
      s := s[j := s[j - 1]][j - 1 := s[j]];
      a[j], a[j - 1] := a[j - 1], a[j];
      j := j - 1;
    }
    Settles(s, i + 1, j);
    assert a[..i + 1] == s[..i + 1];
  }

  /**
   * `sort.Sort(SubnetsByAvailableAddressCount(...))`, in place.  Subnets with equal counts may come
   * in any order; the contract says no more than that the result is sorted and a permutation.
   */
  method SortByAvailable(a: array<Subnet>)
    modifies a
    ensures Descending(a[..])
    ensures multiset(a[..]) == multiset(old(a[..]))
  {
    var i := 0;
    while i < a.Length
      invariant 0 <= i <= a.Length
      invariant Descending(a[..i])
      invariant multiset(a[..]) == multiset(old(a[..]))
    {
      SwapDown(a, i);
      i := i + 1;
    }
    assert a[..i] == a[..];
  }

  // ----- An interface to allocate on -----

  predicate HasSlot(intf: Interface, index: int, limit: int) {
    index <= intf.number && |intf.ipv4s| < limit
  }

  /** An address can be had on `intf`: it has a slot, and its subnet has an address left. */
  ghost predicate Offers(intf: Interface, subnet: Subnet, index: int, limit: int) {
    HasSlot(intf, index, limit) && intf.subnetId == subnet.id && 0 < subnet.available
  }

  /**
   * Chooses an interface whose subnet has the most available addresses among the subnets of
   * interfaces with a free slot, and none exactly if there is nothing to choose from.
   */
  method ChooseInterface(intfs: seq<Interface>, subnets: seq<Subnet>, index: int, limit: int)
    returns (chosen: Option<Interface>, ghost home: Option<Subnet>)
    ensures chosen.Some? <==> exists x, s :: x in intfs && s in subnets && Offers(x, s, index, limit)
    ensures chosen.Some? ==>
      && home.Some? && home.value in subnets && chosen.value in intfs
      && Offers(chosen.value, home.value, index, limit)
      && index <= chosen.value.number && |chosen.value.ipv4s| < limit
      && chosen.value.subnetId == home.value.id && 0 < home.value.available
    ensures forall x, s |
      x in intfs && s in subnets && index <= x.number && |x.ipv4s| < limit && x.subnetId == s.id ::
        s.available <= if home.Some? then home.value.available else 0
    ensures chosen.Some? ==>
      forall x, s | x in intfs && s in subnets && Offers(x, s, index, limit) :: s.available <= home.value.available
    ensures chosen.Some? <==> home.Some?
  {
    var candidates: seq<Interface> := [];
    for i := 0 to |intfs|
      invariant forall x :: x in candidates <==> x in intfs[..i] && HasSlot(x, index, limit)
    {
      if intfs[i].number < index { continue; }
      if |intfs[i].ipv4s| < limit { candidates := candidates + [intfs[i]]; }
    }
    assert intfs[..|intfs|] == intfs;
    var a := new Subnet[|subnets|](i requires 0 <= i < |subnets| => subnets[i]);
    assert a[..] == subnets;
    SortByAvailable(a);
    SameElements(a[..], subnets);
    ghost var sorted := a[..];
    for i := 0 to a.Length
      invariant a[..] == sorted
      invariant forall n, x | 0 <= n < i && x in intfs :: !Offers(x, sorted[n], index, limit)
    {
      if a[i].available <= 0 { continue; }
      for j := 0 to |candidates|
        invariant a[..] == sorted
        invariant forall n | 0 <= n < j :: candidates[n].subnetId != sorted[i].id
      {
        if candidates[j].subnetId == a[i].id {
          assert Offers(candidates[j], sorted[i], index, limit) && sorted[i] in sorted;
          assert forall x, s | x in intfs && s in subnets && Offers(x, s, index, limit) :: s.available <= sorted[i].available;
          return Some(candidates[j]), Some(sorted[i]);
        }
      }
      forall x | x in intfs ensures !Offers(x, sorted[i], index, limit) {
        assert HasSlot(x, index, limit) ==> x in candidates;
      }
    }
    return None, None;
  }

  lemma SameElements(s: seq<Subnet>, t: seq<Subnet>)
    requires multiset(s) == multiset(t)
    ensures forall x :: x in s <==> x in t
  {
    forall x ensures x in s <==> x in t {
      assert x in s <==> x in multiset(s);
      assert x in t <==> x in multiset(t);
    }
  }

  // ----- A subnet for a new interface -----

  predicate Matches(s: Subnet, required: map<string, string>) {
    forall key | key in required :: key in s.tags && s.tags[key] == required[key]
  }

  /**
   * Chooses a subnet with the most available addresses among those that carry every required tag,
   * and none exactly if no subnet carries them all.  A subnet without available addresses can win.
   */
  method ChooseSubnet(subnets: seq<Subnet>, required: map<string, string>) returns (chosen: Option<Subnet>)
    ensures chosen.Some? <==> exists s :: s in subnets && Matches(s, required)
    ensures chosen.Some? ==>
      && chosen.value in subnets && Matches(chosen.value, required)
      && (forall s | s in subnets && Matches(s, required) :: s.available <= chosen.value.available)
      && (forall key | key in required :: key in chosen.value.tags && chosen.value.tags[key] == required[key])
    ensures chosen.None? ==>
      forall s | s in subnets :: exists key :: key in required && (key !in s.tags || s.tags[key] != required[key])
  {
    var available: seq<Subnet> := [];
    for i := 0 to |subnets|
      invariant forall s :: s in available <==> s in subnets[..i] && Matches(s, required)
    {
      var matches := CarriesTags(subnets[i], required);
      if matches { available := available + [subnets[i]]; }
    }
    assert subnets[..|subnets|] == subnets;
    var a := new Subnet[|available|](i requires 0 <= i < |available| => available[i]);
    assert a[..] == available;
    SortByAvailable(a);
    SameElements(a[..], available);
    if a.Length <= 0 { return None; }
    assert a[0] in a[..];
    return Some(a[0]);
  }

  /** The loop over the required tags (`aws/interface.go:193-200`). */
  method CarriesTags(s: Subnet, required: map<string, string>) returns (r: bool)
    ensures r <==> Matches(s, required)
  {
    var rest := required.Keys;
    while rest != {}
      invariant rest <= required.Keys
      invariant forall key | key in required && key !in rest :: key in s.tags && s.tags[key] == required[key]
    {
      var key :| key in rest;
      if key !in s.tags || s.tags[key] != required[key] { return false; }
      rest := rest - {key};
    }
    return true;
  }
}
