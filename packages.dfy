/** Packages of tours: their summed days, cost and cultural value, the
    attractions they cover, and when a package, or one more tour added to
    it, keeps to the bounds and to the rule that no attraction is visited
    twice. A candidate package is named by the increasing positions of its
    tours in the region's tour list. */
module Packages {
  import opened Entities

  /** Cultural value of one attraction id; an id with no record is worth 0. */
  function Worth(a: AttrId, attrs: map<AttrId, Attraction>): int {
    if a in attrs then attrs[a].value else 0
  }

  /** Sum of the cultural values of the attractions in `s`. */
  ghost function AttrSum(s: set<AttrId>, attrs: map<AttrId, Attraction>): int
    decreases s
  {
    if s == {} then 0
    else
      assert (forall a :: a !in s) ==> s == {};
      var a :| a in s;
      Worth(a, attrs) + AttrSum(s - {a}, attrs)
  }

  /** Any element may be taken out first: the sum does not depend on the order. */
  lemma {:induction false} AttrSumRemove(s: set<AttrId>, attrs: map<AttrId, Attraction>, a: AttrId)
    requires a in s
    ensures AttrSum(s, attrs) == Worth(a, attrs) + AttrSum(s - {a}, attrs)
    decreases s
  {
    var b :| b in s && AttrSum(s, attrs) == Worth(b, attrs) + AttrSum(s - {b}, attrs);
    if b != a {
      AttrSumRemove(s - {b}, attrs, a);
      AttrSumRemove(s - {a}, attrs, b);
      assert s - {b} - {a} == s - {a} - {b};
    }
  }

  /** The sum over a union of two disjoint sets is the sum of the two sums. */
  lemma {:induction false} AttrSumUnion(s: set<AttrId>, u: set<AttrId>, attrs: map<AttrId, Attraction>)
    requires s !! u
    ensures AttrSum(s + u, attrs) == AttrSum(s, attrs) + AttrSum(u, attrs)
    decreases s
  {
    if s != {} {
      assert (forall a :: a !in s) ==> s == {};
      var a :| a in s;
      AttrSumRemove(s + u, attrs, a);
      AttrSumRemove(s, attrs, a);
      assert (s + u) - {a} == (s - {a}) + u;
      AttrSumUnion(s - {a}, u, attrs);
    } else {
      assert s + u == u;
    }
  }

  /** All attractions visited by the tours of `p`. */
  function Covered(p: seq<Tour>): set<AttrId> {
    if p == [] then {} else Covered(p[..|p| - 1]) + p[|p| - 1].attractions
  }

  /** Total duration of `p`. */
  function Days(p: seq<Tour>): int {
    if p == [] then 0 else Days(p[..|p| - 1]) + p[|p| - 1].days
  }

  /** Total cost of `p`. */
  function Cost(p: seq<Tour>): int {
    if p == [] then 0 else Cost(p[..|p| - 1]) + p[|p| - 1].cost
  }

  /** Value of one tour: the sum over its own attractions. */
  ghost function TourWorth(t: Tour, attrs: map<AttrId, Attraction>): int {
    AttrSum(t.attractions, attrs)
  }

  /** Value of `p`: the tour values added up, with no de-duplication. */
  ghost function Value(p: seq<Tour>, attrs: map<AttrId, Attraction>): int {
    if p == [] then 0 else Value(p[..|p| - 1], attrs) + TourWorth(p[|p| - 1], attrs)
  }

  /** The tours of `ts` at the positions `sel`, in that order (a position
      outside `ts` contributes nothing). */
  function Select(ts: seq<Tour>, sel: seq<nat>): seq<Tour> {
    if sel == [] then []
    else
      Select(ts, sel[..|sel| - 1])
      + (if sel[|sel| - 1] < |ts| then [ts[sel[|sel| - 1]]] else [])
  }

  /** No attraction is visited by two tours of `p`. */
  predicate Disjoint(p: seq<Tour>) {
    forall j, k :: 0 <= j < k < |p| ==> p[j].attractions !! p[k].attractions
  }

  /** `days` and `cost` keep to the bounds that are present. */
  predicate WithinBounds(bd: Bounds, days: int, cost: int) {
    && (bd.maxDays.Some? ==> days <= bd.maxDays.value)
    && (bd.maxBudget.Some? ==> cost <= bd.maxBudget.value)
  }

  /** The three pruning tests: tour `t` may extend package `p`. */
  predicate Admits(bd: Bounds, p: seq<Tour>, t: Tour) {
    && t.attractions !! Covered(p)
    && WithinBounds(bd, Days(p) + t.days, Cost(p) + t.cost)
  }

  predicate Increasing(sel: seq<nat>) {
    forall j, k :: 0 <= j < k < |sel| ==> sel[j] < sel[k]
  }

  predicate InRange(ts: seq<Tour>, sel: seq<nat>) {
    forall k :: 0 <= k < |sel| ==> sel[k] < |ts|
  }

  /** The tour at position `k` of `sel` passed the pruning tests against
      the tours chosen before it. */
  predicate AdmittedAt(ts: seq<Tour>, bd: Bounds, sel: seq<nat>, k: nat) {
    k < |sel| && sel[k] < |ts| && Admits(bd, Select(ts, sel[..k]), ts[sel[k]])
  }

  /** A position sequence the search can reach: increasing, and every tour
      passed the pruning tests against the tours chosen before it. */
  predicate Explorable(ts: seq<Tour>, bd: Bounds, sel: seq<nat>) {
    && Increasing(sel)
    && InRange(ts, sel)
    && forall k :: 0 <= k < |sel| ==> AdmittedAt(ts, bd, sel, k)
  }

  /** A valid package: each tour at most once, in list order, attraction
      disjoint, and within the bounds. */
  predicate Feasible(ts: seq<Tour>, bd: Bounds, sel: seq<nat>) {
    && Increasing(sel)
    && InRange(ts, sel)
    && Disjoint(Select(ts, sel))
    && WithinBounds(bd, Days(Select(ts, sel)), Cost(Select(ts, sel)))
  }

  /** No tour has negative duration or cost. */
  predicate NonNeg(ts: seq<Tour>) {
    forall k :: 0 <= k < |ts| ==> ts[k].days >= 0 && ts[k].cost >= 0
  }

  lemma SumsSnoc(p: seq<Tour>, t: Tour, attrs: map<AttrId, Attraction>)
    ensures Days(p + [t]) == Days(p) + t.days
    ensures Cost(p + [t]) == Cost(p) + t.cost
    ensures Value(p + [t], attrs) == Value(p, attrs) + TourWorth(t, attrs)
    ensures Covered(p + [t]) == Covered(p) + t.attractions
  {
    assert (p + [t])[..|p|] == p;
  }

  lemma SelectSnoc(ts: seq<Tour>, sel: seq<nat>, i: nat)
    requires i < |ts|
    ensures Select(ts, sel + [i]) == Select(ts, sel) + [ts[i]]
  {
    assert (sel + [i])[..|sel|] == sel;
  }

  /** For positions inside `ts`, `Select` picks exactly those tours. */
  lemma {:induction false} SelectInRange(ts: seq<Tour>, sel: seq<nat>)
    requires InRange(ts, sel)
    ensures |Select(ts, sel)| == |sel|
    ensures forall k :: 0 <= k < |sel| ==> Select(ts, sel)[k] == ts[sel[k]]
  {
    if sel != [] {
      var m := sel[..|sel| - 1];
      assert sel == m + [sel[|sel| - 1]];
      SelectInRange(ts, m);
      SelectSnoc(ts, m, sel[|sel| - 1]);
    }
  }

  /** An attraction is covered iff some tour of the package visits it. */
  lemma {:induction false} CoveredMembers(p: seq<Tour>, a: AttrId)
    ensures a in Covered(p) <==> exists j :: 0 <= j < |p| && a in p[j].attractions
  {
    if p != [] {
      var q := p[..|p| - 1];
      CoveredMembers(q, a);
      if a in Covered(p) && a !in p[|p| - 1].attractions {
        var j :| 0 <= j < |q| && a in q[j].attractions;
        assert p[j] == q[j];
      }
      if exists j :: 0 <= j < |p| && a in p[j].attractions {
        var j :| 0 <= j < |p| && a in p[j].attractions;
        if j < |q| {
          assert q[j] == p[j];
        }
      }
    }
  }

  /** Adding a tour keeps a package disjoint iff the tour avoids everything
      the package already covers. */
  lemma DisjointSnoc(p: seq<Tour>, t: Tour)
    ensures Disjoint(p + [t]) <==> Disjoint(p) && t.attractions !! Covered(p)
  {
    var q := p + [t];
    if Disjoint(q) {
      forall j, k | 0 <= j < k < |p| ensures p[j].attractions !! p[k].attractions {
        assert q[j] == p[j] && q[k] == p[k];
      }
      forall a | a in t.attractions ensures a !in Covered(p) {
        CoveredMembers(p, a);
        assert forall j :: 0 <= j < |p| ==> q[j] == p[j];
        assert q[|p|] == t;
      }
    }
    if Disjoint(p) && t.attractions !! Covered(p) {
      forall j, k | 0 <= j < k < |q| ensures q[j].attractions !! q[k].attractions {
        if k == |p| {
          forall a | a in q[j].attractions ensures a !in t.attractions {
            CoveredMembers(p, a);
          }
        }
      }
    }
  }

  /** Dropping the last position of a reachable sequence leaves a reachable
      sequence, and the last tour passed the pruning tests against it. */
  lemma ExplorablePrefix(ts: seq<Tour>, bd: Bounds, n: seq<nat>)
    requires Explorable(ts, bd, n)
    requires n != []
    ensures Explorable(ts, bd, n[..|n| - 1])
    ensures n[|n| - 1] < |ts|
    ensures Admits(bd, Select(ts, n[..|n| - 1]), ts[n[|n| - 1]])
  {
    var m := n[..|n| - 1];
    assert Increasing(m);
    assert InRange(ts, m);
    forall k | 0 <= k < |m| ensures AdmittedAt(ts, bd, m, k) {
      AdmittedAtPrefix(ts, bd, n, |m|, k);
    }
    assert AdmittedAt(ts, bd, n, |n| - 1);
  }

  /** Whether position `k` passed the tests does not depend on what follows it. */
  lemma AdmittedAtPrefix(ts: seq<Tour>, bd: Bounds, n: seq<nat>, j: nat, k: nat)
    requires k < j <= |n|
    ensures AdmittedAt(ts, bd, n[..j], k) == AdmittedAt(ts, bd, n, k)
  {
    assert n[..j][..k] == n[..k];
  }

  /** A reachable sequence may be extended by a later position whose tour
      passes the pruning tests. */
  lemma ExplorableExtend(ts: seq<Tour>, bd: Bounds, s: seq<nat>, i: nat)
    requires Explorable(ts, bd, s)
    requires i < |ts|
    requires forall k :: 0 <= k < |s| ==> s[k] < i
    requires Admits(bd, Select(ts, s), ts[i])
    ensures Explorable(ts, bd, s + [i])
  {
    var n := s + [i];
    forall k | 0 <= k < |n| ensures AdmittedAt(ts, bd, n, k) {
      if k < |s| {
        assert AdmittedAt(ts, bd, s, k);
        assert n[..k] == s[..k];
      } else {
        assert n[..k] == s;
      }
    }
  }

  /** The disjointness test on each step makes a reachable package
      attraction-disjoint. */
  lemma {:induction false} ExplorableDisjoint(ts: seq<Tour>, bd: Bounds, n: seq<nat>)
    requires Explorable(ts, bd, n)
    ensures Disjoint(Select(ts, n))
  {
    if n != [] {
      var m, i := n[..|n| - 1], n[|n| - 1];
      ExplorablePrefix(ts, bd, n);
      ExplorableDisjoint(ts, bd, m);
      assert n == m + [i];
      SelectSnoc(ts, m, i);
      DisjointSnoc(Select(ts, m), ts[i]);
    }
  }

  /** A reachable non-empty sequence names a valid package: the last step's
      bound tests are the bounds of the whole package. */
  lemma ExplorableIsFeasible(ts: seq<Tour>, bd: Bounds, n: seq<nat>)
    requires Explorable(ts, bd, n)
    requires n != []
    ensures Feasible(ts, bd, n)
  {
    var m, i := n[..|n| - 1], n[|n| - 1];
    ExplorablePrefix(ts, bd, n);
    ExplorableDisjoint(ts, bd, n);
    assert n == m + [i];
    SelectSnoc(ts, m, i);
    SumsSnoc(Select(ts, m), ts[i], map[]);
  }

  /** With non-negative durations and costs every valid package is reached:
      pruning on a prefix never cuts off a valid package. */
  lemma {:induction false} FeasibleIsExplorable(ts: seq<Tour>, bd: Bounds, n: seq<nat>)
    requires NonNeg(ts)
    requires Feasible(ts, bd, n)
    ensures Explorable(ts, bd, n)
  {
    if n != [] {
      var m, i := n[..|n| - 1], n[|n| - 1];
      assert n == m + [i];
      SelectSnoc(ts, m, i);
      var p := Select(ts, m);
      DisjointSnoc(p, ts[i]);
      SumsSnoc(p, ts[i], map[]);
      assert Feasible(ts, bd, m);
      FeasibleIsExplorable(ts, bd, m);
      ExplorableExtend(ts, bd, m, i);
    }
  }

  /** Because the tours of a disjoint package share no attraction, adding up
      the tour values counts every covered attraction exactly once. */
  lemma {:induction false} ValueOfDisjoint(p: seq<Tour>, attrs: map<AttrId, Attraction>)
    requires Disjoint(p)
    ensures Value(p, attrs) == AttrSum(Covered(p), attrs)
  {
    if p != [] {
      var q, t := p[..|p| - 1], p[|p| - 1];
      assert p == q + [t];
      DisjointSnoc(q, t);
      ValueOfDisjoint(q, attrs);
      SumsSnoc(q, t, attrs);
      AttrSumUnion(Covered(q), t.attractions, attrs);
    }
  }
}
