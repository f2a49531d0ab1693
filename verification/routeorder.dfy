/**
 * The order in which `addPolicyRules` adds routes (`plugin/unnumbered-ptp/unnumbered-ptp.go:191-193`):
 * by the text of the destination.  `sort.Slice` is modelled by the insertion sort that Go uses for
 * short slices; `SortIsCanonical` shows that no other sorting algorithm could return anything else.
 */
module RouteOrder {

  /** The text of a destination network; distinct networks have distinct texts. */
  type Dst = string

  /** Go's `<` on strings. */
  predicate Below(a: Dst, b: Dst)
    decreases |a|
  {
    b != [] && (a == [] || a[0] < b[0] || (a[0] == b[0] && Below(a[1..], b[1..])))
  }

  predicate Ascending(s: seq<Dst>) {
    forall i, j | 0 <= i < j < |s| :: !Below(s[j], s[i])
  }

  ghost predicate Distinct(s: seq<Dst>) {
    forall i, j | 0 <= i < j < |s| :: s[i] != s[j]
  }

  /** Moves `x` down from the end past everything it is below. */
  function Insert(s: seq<Dst>, x: Dst): (r: seq<Dst>)
    ensures |r| == |s| + 1
  {
    if s == [] || !Below(x, s[|s| - 1]) then s + [x]
    else Insert(s[..|s| - 1], x) + [s[|s| - 1]]
  }

  function Sort(s: seq<Dst>): (r: seq<Dst>)
    ensures |r| == |s|
  {
    if s == [] then [] else Insert(Sort(s[..|s| - 1]), s[|s| - 1])
  }

  // ----- `Below` is a strict total order -----

  lemma {:induction false} BelowTotal(a: Dst, b: Dst)
    ensures Below(a, b) || Below(b, a) || a == b
    ensures !(Below(a, b) && Below(b, a))
    ensures Below(a, b) ==> a != b
    decreases |a|
  {
    if a != [] && b != [] && a[0] == b[0] {
      BelowTotal(a[1..], b[1..]);
      assert a == [a[0]] + a[1..] && b == [b[0]] + b[1..];
    }
  }

  lemma {:induction false} BelowTransitive(a: Dst, b: Dst, c: Dst)
    requires Below(a, b) && Below(b, c)
    ensures Below(a, c)
    decreases |a|
  {
    if a != [] && a[0] == b[0] && b[0] == c[0] {
      BelowTransitive(a[1..], b[1..], c[1..]);
    }
  }

  /** The order `sort.Slice` keeps: not above. */
  lemma NotBelowTransitive(a: Dst, b: Dst, c: Dst)
    requires !Below(b, a) && !Below(c, b)
    ensures !Below(c, a)
  {
    BelowTotal(a, b);
    BelowTotal(b, c);
    if Below(c, a) {
      if a == b || b == c {} else { BelowTransitive(c, a, b); }
    }
  }

  /** The texts agree before `k`, and there the first one ends or has the smaller character. */
  predicate PartAt(a: Dst, b: Dst, k: nat) {
    k <= |a| && k < |b| && a[..k] == b[..k] && (k == |a| || a[k] < b[k])
  }

  lemma PartAtOnce(a: Dst, b: Dst, k: nat)
    requires a == [] || b == [] || a[0] != b[0]
    ensures PartAt(a, b, k) ==> k == 0
  {
    if 0 < k <= |a| && k < |b| { assert a[..k][0] == a[0] && b[..k][0] == b[0]; }
  }

  /** `Below` is the order of dictionaries. */
  lemma {:induction false} BelowExactly(a: Dst, b: Dst)
    ensures Below(a, b) <==> exists k: nat :: PartAt(a, b, k)
    decreases |a|
  {
    if a == [] || b == [] || a[0] != b[0] {
      assert Below(a, b) <==> PartAt(a, b, 0);
      forall k: nat ensures PartAt(a, b, k) ==> k == 0 {
        PartAtOnce(a, b, k);
      }
    } else {
      BelowExactly(a[1..], b[1..]);
      forall k: nat | PartAt(a[1..], b[1..], k) ensures PartAt(a, b, k + 1) {
        assert a[..k + 1] == [a[0]] + a[1..][..k] && b[..k + 1] == [b[0]] + b[1..][..k];
      }
      forall k: nat | PartAt(a, b, k) ensures 0 < k && PartAt(a[1..], b[1..], k - 1) {
        assert a[1..][..k - 1] == a[..k][1..] && b[1..][..k - 1] == b[..k][1..];
      }
    }
  }

  // ----- Sorting -----

  lemma {:induction false} InsertPermutes(s: seq<Dst>, x: Dst)
    ensures multiset(Insert(s, x)) == multiset(s) + multiset{x}
    decreases |s|
  {
    if s != [] && Below(x, s[|s| - 1]) {
      var front, last := s[..|s| - 1], s[|s| - 1];
      InsertPermutes(front, x);
      assert s == front + [last];
    }
  }

  lemma AppendAscending(s: seq<Dst>, x: Dst)
    requires Ascending(s) && (s == [] || !Below(x, s[|s| - 1]))
    ensures Ascending(s + [x])
  {
    forall i | 0 <= i < |s| ensures !Below(x, s[i]) {
      if i < |s| - 1 { NotBelowTransitive(s[i], s[|s| - 1], x); }
    }
  }

  lemma Inserted(s: seq<Dst>, x: Dst, y: Dst)
    requires y in Insert(s, x)
    ensures y in s || y == x
  {
    InsertPermutes(s, x);
    assert y in multiset(Insert(s, x));
  }

  lemma {:induction false} InsertAscends(s: seq<Dst>, x: Dst)
    requires Ascending(s)
    ensures Ascending(Insert(s, x))
    decreases |s|
  {
    if s != [] && Below(x, s[|s| - 1]) {
      var front, last := s[..|s| - 1], s[|s| - 1];
      var r := Insert(front, x);
      InsertAscends(front, x);
      Inserted(front, x, r[|r| - 1]);
      BelowTotal(x, last);
      AppendAscending(r, last);
    } else {
      AppendAscending(s, x);
    }
  }

  lemma {:induction false} SortSorts(s: seq<Dst>)
    ensures Ascending(Sort(s))
    ensures multiset(Sort(s)) == multiset(s)
    decreases |s|
  {
    if s != [] {
      SortSorts(s[..|s| - 1]);
      InsertAscends(Sort(s[..|s| - 1]), s[|s| - 1]);
      InsertPermutes(Sort(s[..|s| - 1]), s[|s| - 1]);
      assert s == s[..|s| - 1] + [s[|s| - 1]];
    }
  }

  lemma HeadIsLeast(a: seq<Dst>, x: Dst)
    requires Ascending(a) && x in multiset(a)
    ensures !Below(x, a[0])
  {
    var i :| 0 <= i < |a| && a[i] == x;
    BelowTotal(x, a[0]);
  }

  /** Two ascending sequences with the same elements are the same. */
  lemma {:induction false} AscendingUnique(a: seq<Dst>, b: seq<Dst>)
    requires Ascending(a) && Ascending(b) && multiset(a) == multiset(b)
    ensures a == b
    decreases |a|
  {
    assert |multiset(a)| == |a| && |multiset(b)| == |b|;
    if a != [] {
      SameHeads(a, b);
      TailOf(a);
      TailOf(b);
      AscendingUnique(a[1..], b[1..]);
    }
  }

  lemma TailOf(a: seq<Dst>)
    requires a != []
    ensures a == [a[0]] + a[1..] && multiset(a[1..]) == multiset(a) - multiset{a[0]}
  {
    assert a == [a[0]] + a[1..];
  }

  lemma SameHeads(a: seq<Dst>, b: seq<Dst>)
    requires a != [] && b != [] && Ascending(a) && Ascending(b) && multiset(a) == multiset(b)
    ensures a[0] == b[0]
  {
    HeadIsLeast(a, b[0]);
    HeadIsLeast(b, a[0]);
    BelowTotal(a[0], b[0]);
  }

  /** Any ascending arrangement of `s`, by whatever algorithm, is `Sort(s)`. */
  lemma SortIsCanonical(s: seq<Dst>, sorted: seq<Dst>)
    requires multiset(sorted) == multiset(s)
    ensures Ascending(sorted) <==> sorted == Sort(s)
  {
    SortSorts(s);
    if Ascending(sorted) { AscendingUnique(sorted, Sort(s)); }
  }

  /** Callers that list the same destinations in any order add them in one and the same order. */
  lemma OrdersAgree(s: seq<Dst>, t: seq<Dst>)
    requires multiset(s) == multiset(t)
    ensures Sort(s) == Sort(t)
  {
    SortSorts(t);
    SortIsCanonical(s, Sort(t));
  }

  lemma SortKeepsDistinct(s: seq<Dst>)
    ensures Distinct(s) <==> Distinct(Sort(s))
  {
    SortSorts(s);
    DistinctCounts(s);
    DistinctCounts(Sort(s));
  }

  lemma {:induction false} DistinctCounts(s: seq<Dst>)
    ensures Distinct(s) <==> forall x | x in multiset(s) :: multiset(s)[x] == 1
    decreases |s|
  {
    if s != [] {
      var front, last := s[..|s| - 1], s[|s| - 1];
      assert s == front + [last];
      DistinctCounts(front);
      assert multiset(s) == multiset(front) + multiset{last};
      if last in front {
        var i :| 0 <= i < |front| && front[i] == last;
        assert s[i] == s[|s| - 1];
        assert multiset(s)[last] >= 2;
      } else {
        assert Distinct(s) <==> Distinct(front);
        forall x | x in multiset(front) ensures multiset(s)[x] == multiset(front)[x] && x in multiset(s) {}
      }
    }
  }

  lemma InsertFrom(front: seq<Dst>, x: Dst, j: nat)
    requires 0 < j <= |front| && Below(x, front[j - 1])
    ensures Insert(front[..j], x) + front[j..] == Insert(front[..j - 1], x) + front[j - 1..]
  {
    assert front[..j][..j - 1] == front[..j - 1];
    assert front[j - 1..] == [front[j - 1]] + front[j..];
  }

  /** The array while `x` is on its way down to position `j`. */
  function Arranged(front: seq<Dst>, x: Dst, j: nat, rest: seq<Dst>): seq<Dst>
    requires j <= |front|
  {
    front[..j] + [x] + front[j..] + rest
  }

  lemma SwapArranged(front: seq<Dst>, x: Dst, j: nat, rest: seq<Dst>)
    requires 0 < j <= |front|
    ensures
      var s := Arranged(front, x, j, rest);
      s[j] == x && s[j - 1] == front[j - 1] && s[j := s[j - 1]][j - 1 := s[j]] == Arranged(front, x, j - 1, rest)
  {
  }

  lemma Swapped(front: seq<Dst>, x: Dst, j: nat, rest: seq<Dst>)
    requires j <= |front| && (0 < j ==> !Below(x, front[j - 1]))
    ensures
      var s := Arranged(front, x, j, rest);
      && s[|front| + 1..] == rest
      && s[..|front| + 1] == Insert(front[..j], x) + front[j..]
  {
    var s := Arranged(front, x, j, rest);
    assert s == (front[..j] + [x] + front[j..]) + rest;
  }

  /** One round of the insertion sort: swaps `a[i]` down to its place among the `i` before it. */
  method SwapDown(a: array<Dst>, i: nat)
    requires i < a.Length
    modifies a
    ensures a[..i + 1] == Insert(old(a[..i]), old(a[i]))
    ensures a[i + 1..] == old(a[i + 1..])
  {
    var j := i;
    ghost var x, front, rest := a[i], a[..i], a[i + 1..];
    ghost var s := a[..];
    assert s == Arranged(front, x, i, rest) && front[..i] == front && front[i..] == [];
    while 0 < j && Below(a[j], a[j - 1])
      invariant 0 <= j <= i && s == a[..] == Arranged(front, x, j, rest)
      invariant Insert(front, x) == Insert(front[..j], x) + front[j..]
    {
      SwapArranged(front, x, j, rest);
      InsertFrom(front, x, j);
      s := s[j := s[j - 1]][j - 1 := s[j]];
      a[j], a[j - 1] := a[j - 1], a[j];
      j := j - 1;
    }
    Swapped(front, x, j, rest);
    assert a[..i + 1] == s[..i + 1] && a[i + 1..] == s[i + 1..];
  }

  lemma SortNext(before: seq<Dst>, s: seq<Dst>, s': seq<Dst>, i: nat)
    requires i < |before| == |s| == |s'| && s[..i] == Sort(before[..i]) && s[i..] == before[i..]
    requires s'[..i + 1] == Insert(s[..i], s[i]) && s'[i + 1..] == s[i + 1..]
    ensures s'[..i + 1] == Sort(before[..i + 1]) && s'[i + 1..] == before[i + 1..]
  {
    assert before[..i + 1][..i] == before[..i];
    assert s[i] == s[i..][0] && s[i + 1..] == s[i..][1..] && before[i + 1..] == before[i..][1..];
  }

  /** `sort.Slice(routes, …)`, in place. */
  method SortSlice(a: array<Dst>)
    modifies a
    ensures a[..] == Sort(old(a[..]))
  {
    ghost var before := a[..];
    ghost var s := before;
    var i := 0;
    while i < a.Length
      invariant 0 <= i <= a.Length && s == a[..]
      invariant s[..i] == Sort(before[..i]) && s[i..] == before[i..]
    {
      assert a[..i] == s[..i] && a[i + 1..] == s[i + 1..];
      SwapDown(a, i);
      assert a[..i + 1] == a[..][..i + 1] && a[i + 1..] == a[..][i + 1..];
      SortNext(before, s, a[..], i);
      s := a[..];
      i := i + 1;
    }
    assert s[..i] == s && before[..i] == before;
  }
}
