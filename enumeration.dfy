/** The order in which the backtracking search visits candidate packages,
    the "best so far" record it keeps along the way, and what that record
    holds at the end: an optimal package, the first optimal one in visiting
    order, which is the lexicographically least by positions. */
module Enumeration {
  import opened Entities
  import opened Packages

  /** The position sequences visited by one search call on `sel` whose loop
      starts at `start`, in visiting order: `sel` itself first (the best
      record is checked on entry), then the subtrees of the admitted
      positions `start`, `start + 1`, ... */
  ghost function Subtree(ts: seq<Tour>, bd: Bounds, sel: seq<nat>, start: nat): seq<seq<nat>>
    requires start <= |ts|
    decreases |ts| - start, 1
  {
    [sel] + Branches(ts, bd, sel, start)
  }

  /** The part of the loop of a search call on `sel` from position `i` on. */
  ghost function Branches(ts: seq<Tour>, bd: Bounds, sel: seq<nat>, i: nat): seq<seq<nat>>
    requires i <= |ts|
    decreases |ts| - i, 0
  {
    if i == |ts| then []
    else
      (if Admits(bd, Select(ts, sel), ts[i]) then Subtree(ts, bd, sel + [i], i + 1) else [])
      + Branches(ts, bd, sel, i + 1)
  }

  /** The best record: the positions of the recorded package and its value. */
  datatype Best = Best(sel: seq<nat>, value: int)

  ghost function NodeValue(ts: seq<Tour>, attrs: map<AttrId, Attraction>, n: seq<nat>): int {
    Value(Select(ts, n), attrs)
  }

  /** The entry check of a search call on `sel` with value `value`: the
      record changes only when the value is strictly better. */
  function Record(b: Best, sel: seq<nat>, value: int): Best {
    if value > b.value then Best(sel, value) else b
  }

  /** The entry check on the visited package `n`, with its true value. */
  ghost function Step(ts: seq<Tour>, attrs: map<AttrId, Attraction>, b: Best, n: seq<nat>): Best {
    Record(b, n, NodeValue(ts, attrs, n))
  }

  /** The record after visiting the packages of `l` in order. */
  ghost function Fold(ts: seq<Tour>, attrs: map<AttrId, Attraction>, b: Best, l: seq<seq<nat>>): Best
    decreases |l|
  {
    if l == [] then b else Fold(ts, attrs, Step(ts, attrs, b, l[0]), l[1..])
  }

  /** The record a whole search leaves: started from the reset record
      (empty package, value -1) at the empty package and position 0. */
  ghost function Optimum(ts: seq<Tour>, attrs: map<AttrId, Attraction>, bd: Bounds): Best {
    Fold(ts, attrs, Best([], -1), Subtree(ts, bd, [], 0))
  }

  /** `n` starts with `sel` and continues with positions `lo` or later. */
  predicate Extends(n: seq<nat>, sel: seq<nat>, lo: nat) {
    && |sel| <= |n|
    && n[..|sel|] == sel
    && forall k :: |sel| <= k < |n| ==> lo <= n[k]
  }

  /** Lexicographic order on position sequences, a proper prefix first. */
  predicate LexLess(a: seq<nat>, b: seq<nat>) {
    || (|a| < |b| && a == b[..|a|])
    || exists k :: 0 <= k < |a| && k < |b| && a[..k] == b[..k] && a[k] < b[k]
  }

  predicate LexSorted(l: seq<seq<nat>>) {
    forall j, k :: 0 <= j < k < |l| ==> LexLess(l[j], l[k])
  }

  lemma {:induction false} FoldAppend(ts: seq<Tour>, attrs: map<AttrId, Attraction>, b: Best, l: seq<seq<nat>>, m: seq<seq<nat>>)
    ensures Fold(ts, attrs, b, l + m) == Fold(ts, attrs, Fold(ts, attrs, b, l), m)
    decreases |l|
  {
    if l == [] {
      assert l + m == m;
    } else {
      assert (l + m)[0] == l[0];
      assert (l + m)[1..] == l[1..] + m;
      FoldAppend(ts, attrs, Step(ts, attrs, b, l[0]), l[1..], m);
    }
  }

  /** A search call first visits its own package, then its loop. */
  lemma SubtreeFold(ts: seq<Tour>, attrs: map<AttrId, Attraction>, bd: Bounds, sel: seq<nat>, start: nat, b: Best)
    requires start <= |ts|
    ensures Fold(ts, attrs, b, Subtree(ts, bd, sel, start))
      == Fold(ts, attrs, Step(ts, attrs, b, sel), Branches(ts, bd, sel, start))
  {
    FoldAppend(ts, attrs, b, [sel], Branches(ts, bd, sel, start));
    assert [sel][1..] == [];
  }

  /** A loop iteration whose tour is not admitted visits nothing. */
  lemma BranchesSkip(ts: seq<Tour>, attrs: map<AttrId, Attraction>, bd: Bounds, sel: seq<nat>, i: nat, b: Best)
    requires i < |ts| && !Admits(bd, Select(ts, sel), ts[i])
    ensures Fold(ts, attrs, b, Branches(ts, bd, sel, i)) == Fold(ts, attrs, b, Branches(ts, bd, sel, i + 1))
  {
    assert [] + Branches(ts, bd, sel, i + 1) == Branches(ts, bd, sel, i + 1);
  }

  /** A loop iteration whose tour is admitted visits the subtree of the
      extended package, and the loop goes on from the record it leaves. */
  lemma BranchesTake(ts: seq<Tour>, attrs: map<AttrId, Attraction>, bd: Bounds, sel: seq<nat>, i: nat, b: Best)
    requires i < |ts| && Admits(bd, Select(ts, sel), ts[i])
    ensures Fold(ts, attrs, b, Branches(ts, bd, sel, i))
      == Fold(ts, attrs, Fold(ts, attrs, b, Subtree(ts, bd, sel + [i], i + 1)), Branches(ts, bd, sel, i + 1))
  {
    FoldAppend(ts, attrs, b, Subtree(ts, bd, sel + [i], i + 1), Branches(ts, bd, sel, i + 1));
  }

  /** The running totals a search call carries with its partial package:
      the attractions in use, and the days, cost and value so far. */
  datatype Totals = Totals(used: set<AttrId>, days: int, cost: int, value: int)

  /** The totals of the package of `sel`. */
  ghost function TotalsOf(ts: seq<Tour>, attrs: map<AttrId, Attraction>, sel: seq<nat>): Totals {
    var p := Select(ts, sel);
    Totals(Covered(p), Days(p), Cost(p), Value(p, attrs))
  }

  /** The record one search call on `sel` with totals `tot` leaves, started
      from record `b`, following the call's own control flow: the entry
      check, then the loop from `start`. */
  ghost function Visit(ts: seq<Tour>, attrs: map<AttrId, Attraction>, bd: Bounds, sel: seq<nat>, start: nat,
                       tot: Totals, b: Best): Best
    requires start <= |ts|
    decreases |ts| - start, 1
  {
    VisitFrom(ts, attrs, bd, sel, start, tot, Record(b, sel, tot.value))
  }

  /** The record the loop of that call leaves from position `i` on. */
  ghost function VisitFrom(ts: seq<Tour>, attrs: map<AttrId, Attraction>, bd: Bounds, sel: seq<nat>, i: nat,
                           tot: Totals, b: Best): Best
    requires i <= |ts|
    decreases |ts| - i, 0
  {
    if i == |ts| then b
    else VisitFrom(ts, attrs, bd, sel, i + 1, tot, Child(ts, attrs, bd, sel, i, tot, b))
  }

  /** The three tests of a loop turn on the running totals: the tour's
      attractions are all unused, and the days and cost stay within the
      bounds that are present. */
  predicate Fits(bd: Bounds, tot: Totals, t: Tour) {
    t.attractions !! tot.used && WithinBounds(bd, tot.days + t.days, tot.cost + t.cost)
  }

  /** The running totals after pushing tour `t`. */
  ghost function Add(tot: Totals, t: Tour, attrs: map<AttrId, Attraction>): Totals {
    Totals(tot.used + t.attractions, tot.days + t.days, tot.cost + t.cost, tot.value + TourWorth(t, attrs))
  }

  /** One turn of that loop: a tour that fits hands the record to the nested
      call on the extended package; any other tour leaves the record alone. */
  ghost function Child(ts: seq<Tour>, attrs: map<AttrId, Attraction>, bd: Bounds, sel: seq<nat>, i: nat,
                       tot: Totals, b: Best): Best
    requires i < |ts|
    decreases |ts| - i - 1, 2
  {
    if Fits(bd, tot, ts[i]) then Visit(ts, attrs, bd, sel + [i], i + 1, Add(tot, ts[i], attrs), b) else b
  }

  /** Adding the tour at position `i` to the totals of `sel` gives the totals
      of `sel + [i]`. */
  lemma TotalsSnoc(ts: seq<Tour>, attrs: map<AttrId, Attraction>, sel: seq<nat>, i: nat)
    requires i < |ts|
    ensures TotalsOf(ts, attrs, sel + [i]) == Add(TotalsOf(ts, attrs, sel), ts[i], attrs)
  {
    SelectSnoc(ts, sel, i);
    SumsSnoc(Select(ts, sel), ts[i], attrs);
  }

  /** With totals that match the package, the call-by-call record is the
      fold over the visiting order. */
  lemma {:induction false} VisitIsFold(ts: seq<Tour>, attrs: map<AttrId, Attraction>, bd: Bounds, sel: seq<nat>,
                                       start: nat, tot: Totals, b: Best)
    requires start <= |ts|
    requires tot == TotalsOf(ts, attrs, sel)
    ensures Visit(ts, attrs, bd, sel, start, tot, b) == Fold(ts, attrs, b, Subtree(ts, bd, sel, start))
    decreases |ts| - start, 1
  {
    SubtreeFold(ts, attrs, bd, sel, start, b);
    assert Record(b, sel, tot.value) == Step(ts, attrs, b, sel);
    VisitFromIsFold(ts, attrs, bd, sel, start, tot, Step(ts, attrs, b, sel));
  }

  lemma {:induction false} VisitFromIsFold(ts: seq<Tour>, attrs: map<AttrId, Attraction>, bd: Bounds, sel: seq<nat>,
                                           i: nat, tot: Totals, b: Best)
    requires i <= |ts|
    requires tot == TotalsOf(ts, attrs, sel)
    ensures VisitFrom(ts, attrs, bd, sel, i, tot, b) == Fold(ts, attrs, b, Branches(ts, bd, sel, i))
    decreases |ts| - i, 0
  {
    if i < |ts| {
      ChildIsFold(ts, attrs, bd, sel, i, tot, b);
      if Admits(bd, Select(ts, sel), ts[i]) {
        BranchesTake(ts, attrs, bd, sel, i, b);
      } else {
        BranchesSkip(ts, attrs, bd, sel, i, b);
      }
      VisitFromIsFold(ts, attrs, bd, sel, i + 1, tot, Child(ts, attrs, bd, sel, i, tot, b));
    }
  }

  /** On totals that match the package, the three tests of a loop turn are
      `Admits`. */
  lemma AdmitsTotals(ts: seq<Tour>, attrs: map<AttrId, Attraction>, bd: Bounds, sel: seq<nat>, t: Tour, tot: Totals)
    requires tot == TotalsOf(ts, attrs, sel)
    ensures Admits(bd, Select(ts, sel), t) <==> Fits(bd, tot, t)
  {
  }

  /** A loop turn on matching totals runs the nested call exactly when the
      tour is admitted, and that call leaves the fold over its subtree. */
  lemma {:induction false} ChildIsFold(ts: seq<Tour>, attrs: map<AttrId, Attraction>, bd: Bounds, sel: seq<nat>,
                                       i: nat, tot: Totals, b: Best)
    requires i < |ts|
    requires tot == TotalsOf(ts, attrs, sel)
    ensures Child(ts, attrs, bd, sel, i, tot, b) ==
      if Admits(bd, Select(ts, sel), ts[i]) then Fold(ts, attrs, b, Subtree(ts, bd, sel + [i], i + 1)) else b
    decreases |ts| - i - 1, 2
  {
    AdmitsTotals(ts, attrs, bd, sel, ts[i], tot);
    if Fits(bd, tot, ts[i]) {
      TotalsSnoc(ts, attrs, sel, i);
      VisitIsFold(ts, attrs, bd, sel + [i], i + 1, Add(tot, ts[i], attrs), b);
    }
  }

  /** The record only improves: it ends at least at its initial value and
      at every visited value, and it changes only to a strictly larger one. */
  lemma {:induction false} FoldMonotone(ts: seq<Tour>, attrs: map<AttrId, Attraction>, b: Best, l: seq<seq<nat>>)
    ensures Fold(ts, attrs, b, l).value >= b.value
    ensures forall j :: 0 <= j < |l| ==> NodeValue(ts, attrs, l[j]) <= Fold(ts, attrs, b, l).value
    ensures Fold(ts, attrs, b, l) != b ==> Fold(ts, attrs, b, l).value > b.value
    decreases |l|
  {
    if l != [] {
      var b1 := Step(ts, attrs, b, l[0]);
      var r := Fold(ts, attrs, b, l);
      assert r == Fold(ts, attrs, b1, l[1..]);
      FoldMonotone(ts, attrs, b1, l[1..]);
      forall j | 0 <= j < |l| ensures NodeValue(ts, attrs, l[j]) <= r.value {
        if j > 0 {
          assert l[j] == l[1..][j - 1];
        }
      }
    }
  }

  /** Strict improvement keeps the first maximum: when the record changed,
      it is a visited package all of whose predecessors in `l` are strictly
      worse. */
  lemma {:induction false} FoldFirstMax(ts: seq<Tour>, attrs: map<AttrId, Attraction>, b: Best, l: seq<seq<nat>>)
    ensures Fold(ts, attrs, b, l) == b || exists k :: FirstMaxAt(ts, attrs, l, k, Fold(ts, attrs, b, l))
    decreases |l|
  {
    if l != [] {
      var b1 := Step(ts, attrs, b, l[0]);
      var r := Fold(ts, attrs, b, l);
      assert r == Fold(ts, attrs, b1, l[1..]);
      if r != b {
        if r == b1 {
          assert FirstMaxAt(ts, attrs, l, 0, r);
        } else {
          FoldFirstMax(ts, attrs, b1, l[1..]);
          FoldMonotone(ts, attrs, b1, l[1..]);
          var k :| FirstMaxAt(ts, attrs, l[1..], k, r);
          forall j | 0 <= j < k + 1 ensures NodeValue(ts, attrs, l[j]) < r.value {
            if j > 0 {
              assert l[j] == l[1..][j - 1];
            }
          }
          assert FirstMaxAt(ts, attrs, l, k + 1, r);
        }
      }
    }
  }

  /** `r` is the package at index `k` of `l`, with its value, and every
      earlier package of `l` is worth strictly less. */
  ghost predicate FirstMaxAt(ts: seq<Tour>, attrs: map<AttrId, Attraction>, l: seq<seq<nat>>, k: int, r: Best) {
    && 0 <= k < |l|
    && l[k] == r.sel
    && NodeValue(ts, attrs, l[k]) == r.value
    && forall j :: 0 <= j < k ==> NodeValue(ts, attrs, l[j]) < r.value
  }

  /** Every package visited below `sel` extends `sel` with later positions. */
  lemma {:induction false} SubtreeExtends(ts: seq<Tour>, bd: Bounds, sel: seq<nat>, start: nat)
    requires start <= |ts|
    ensures forall n :: n in Subtree(ts, bd, sel, start) ==> Extends(n, sel, start)
    decreases |ts| - start, 1
  {
    BranchesExtends(ts, bd, sel, start);
  }

  lemma {:induction false} BranchesExtends(ts: seq<Tour>, bd: Bounds, sel: seq<nat>, i: nat)
    requires i <= |ts|
    ensures forall n :: n in Branches(ts, bd, sel, i) ==> |n| > |sel| && Extends(n, sel, i) && n[|sel|] >= i
    decreases |ts| - i, 0
  {
    if i < |ts| {
      BranchesExtends(ts, bd, sel, i + 1);
      if Admits(bd, Select(ts, sel), ts[i]) {
        var s := sel + [i];
        SubtreeExtends(ts, bd, s, i + 1);
        forall n | n in Subtree(ts, bd, s, i + 1)
          ensures |n| > |sel| && Extends(n, sel, i) && n[|sel|] == i
        {
          assert n[..|sel|] == n[..|s|][..|sel|];
          assert s[..|sel|] == sel;
          assert n[|sel|] == n[..|s|][|sel|];
        }
      }
    }
  }

  /** Every package visited below a reachable `sel` is reachable. */
  lemma {:induction false} SubtreeReachable(ts: seq<Tour>, bd: Bounds, sel: seq<nat>, start: nat)
    requires start <= |ts|
    requires Explorable(ts, bd, sel)
    requires forall k :: 0 <= k < |sel| ==> sel[k] < start
    ensures forall n :: n in Subtree(ts, bd, sel, start) ==> Explorable(ts, bd, n)
    decreases |ts| - start, 1
  {
    BranchesReachable(ts, bd, sel, start);
  }

  lemma {:induction false} BranchesReachable(ts: seq<Tour>, bd: Bounds, sel: seq<nat>, i: nat)
    requires i <= |ts|
    requires Explorable(ts, bd, sel)
    requires forall k :: 0 <= k < |sel| ==> sel[k] < i
    ensures forall n :: n in Branches(ts, bd, sel, i) ==> Explorable(ts, bd, n)
    decreases |ts| - i, 0
  {
    if i < |ts| {
      BranchesReachable(ts, bd, sel, i + 1);
      if Admits(bd, Select(ts, sel), ts[i]) {
        ExplorableExtend(ts, bd, sel, i);
        SubtreeReachable(ts, bd, sel + [i], i + 1);
      }
    }
  }

  /** The search misses nothing: every reachable extension of `sel` by
      positions from `start` on is visited. */
  lemma {:induction false} SubtreeComplete(ts: seq<Tour>, bd: Bounds, sel: seq<nat>, start: nat, n: seq<nat>)
    requires start <= |ts|
    requires Explorable(ts, bd, n)
    requires Extends(n, sel, start)
    ensures n in Subtree(ts, bd, sel, start)
    decreases |n| - |sel|, |ts| - start, 1
  {
    if |n| == |sel| {
      assert n == n[..|sel|];
    } else {
      BranchesComplete(ts, bd, sel, start, n);
    }
  }

  lemma {:induction false} BranchesComplete(ts: seq<Tour>, bd: Bounds, sel: seq<nat>, i: nat, n: seq<nat>)
    requires i <= |ts|
    requires Explorable(ts, bd, n)
    requires Extends(n, sel, i)
    requires |n| > |sel|
    ensures n in Branches(ts, bd, sel, i)
    decreases |n| - |sel|, |ts| - i, 0
  {
    ExplorableAt(ts, bd, n, |sel|);
    if n[|sel|] == i {
      CompleteStep(ts, bd, sel, i, n);
      SubtreeComplete(ts, bd, sel + [i], i + 1, n);
      InBranchesHere(ts, bd, sel, i, n);
    } else {
      BranchesComplete(ts, bd, sel, i + 1, n);
      InBranchesLater(ts, bd, sel, i, n);
    }
  }

  /** A loop turn whose tour is admitted visits its subtree first. */
  lemma BranchesAdmitted(ts: seq<Tour>, bd: Bounds, sel: seq<nat>, i: nat)
    requires i < |ts| && Admits(bd, Select(ts, sel), ts[i])
    ensures Branches(ts, bd, sel, i) == Subtree(ts, bd, sel + [i], i + 1) + Branches(ts, bd, sel, i + 1)
  {
  }

  /** A loop turn whose tour is not admitted visits nothing. */
  lemma BranchesRejected(ts: seq<Tour>, bd: Bounds, sel: seq<nat>, i: nat)
    requires i < |ts| && !Admits(bd, Select(ts, sel), ts[i])
    ensures Branches(ts, bd, sel, i) == Branches(ts, bd, sel, i + 1)
  {
    assert [] + Branches(ts, bd, sel, i + 1) == Branches(ts, bd, sel, i + 1);
  }

  /** What the subtree of an admitted tour visits the loop visits. */
  lemma InBranchesHere(ts: seq<Tour>, bd: Bounds, sel: seq<nat>, i: nat, n: seq<nat>)
    requires i < |ts| && Admits(bd, Select(ts, sel), ts[i])
    requires n in Subtree(ts, bd, sel + [i], i + 1)
    ensures n in Branches(ts, bd, sel, i)
  {
    BranchesAdmitted(ts, bd, sel, i);
  }

  /** What the loop visits from `i + 1` on it also visits from `i` on. */
  lemma InBranchesLater(ts: seq<Tour>, bd: Bounds, sel: seq<nat>, i: nat, n: seq<nat>)
    requires i < |ts| && n in Branches(ts, bd, sel, i + 1)
    ensures n in Branches(ts, bd, sel, i)
  {
    if Admits(bd, Select(ts, sel), ts[i]) {
      BranchesAdmitted(ts, bd, sel, i);
    } else {
      BranchesRejected(ts, bd, sel, i);
    }
  }

  /** Position `k` of a reachable sequence is a tour that passed the pruning
      tests against the positions before it. */
  lemma ExplorableAt(ts: seq<Tour>, bd: Bounds, n: seq<nat>, k: nat)
    requires Explorable(ts, bd, n)
    requires k < |n|
    ensures n[k] < |ts|
    ensures Admits(bd, Select(ts, n[..k]), ts[n[k]])
  {
    assert AdmittedAt(ts, bd, n, k);
  }

  /** A reachable `n` whose next position after `sel` is `i`: the search
      admits `i` after `sel`, and `n` lies below `sel + [i]`. */
  lemma CompleteStep(ts: seq<Tour>, bd: Bounds, sel: seq<nat>, i: nat, n: seq<nat>)
    requires Explorable(ts, bd, n)
    requires Extends(n, sel, i)
    requires |n| > |sel| && n[|sel|] == i
    ensures i < |ts|
    ensures Admits(bd, Select(ts, sel), ts[i])
    ensures Extends(n, sel + [i], i + 1)
  {
    var k := |sel|;
    ExplorableAt(ts, bd, n, k);
    assert n[..k] == sel;
    assert n[..k + 1] == n[..k] + [n[k]];
    assert Increasing(n);
    forall j | k + 1 <= j < |n| ensures i + 1 <= n[j] {
      assert n[k] < n[j];
    }
  }

  lemma SortedAppend(l: seq<seq<nat>>, m: seq<seq<nat>>)
    requires LexSorted(l) && LexSorted(m)
    requires forall a, b :: a in l && b in m ==> LexLess(a, b)
    ensures LexSorted(l + m)
  {
    var lm := l + m;
    forall j, k | 0 <= j < k < |lm| ensures LexLess(lm[j], lm[k]) {
      if k < |l| {
        assert lm[j] == l[j] && lm[k] == l[k];
      } else if j >= |l| {
        assert lm[j] == m[j - |l|] && lm[k] == m[k - |l|];
      } else {
        assert lm[j] in l && lm[k] in m;
      }
    }
  }

  /** The search visits packages in strictly increasing lexicographic order. */
  lemma {:induction false} SubtreeSorted(ts: seq<Tour>, bd: Bounds, sel: seq<nat>, start: nat)
    requires start <= |ts|
    ensures LexSorted(Subtree(ts, bd, sel, start))
    decreases |ts| - start, 1
  {
    var b := Branches(ts, bd, sel, start);
    BranchesSorted(ts, bd, sel, start);
    BranchesExtends(ts, bd, sel, start);
    forall x, y | x in [sel] && y in b ensures LexLess(x, y) {
      assert x == sel && y[..|sel|] == sel;
    }
    SortedAppend([sel], b);
  }

  lemma {:induction false} BranchesSorted(ts: seq<Tour>, bd: Bounds, sel: seq<nat>, i: nat)
    requires i <= |ts|
    ensures LexSorted(Branches(ts, bd, sel, i))
    decreases |ts| - i, 0
  {
    if i < |ts| {
      var rest := Branches(ts, bd, sel, i + 1);
      BranchesSorted(ts, bd, sel, i + 1);
      if Admits(bd, Select(ts, sel), ts[i]) {
        var here := Subtree(ts, bd, sel + [i], i + 1);
        BranchesAdmitted(ts, bd, sel, i);
        SubtreeSorted(ts, bd, sel + [i], i + 1);
        SubtreeBeforeRest(ts, bd, sel, i);
        SortedAppend(here, rest);
      } else {
        BranchesRejected(ts, bd, sel, i);
      }
    }
  }

  /** Everything below `sel + [i]` comes before what the loop visits after
      position `i`. */
  lemma SubtreeBeforeRest(ts: seq<Tour>, bd: Bounds, sel: seq<nat>, i: nat)
    requires i < |ts|
    ensures forall x, y :: x in Subtree(ts, bd, sel + [i], i + 1) && y in Branches(ts, bd, sel, i + 1) ==> LexLess(x, y)
  {
    var s := sel + [i];
    var here, rest := Subtree(ts, bd, s, i + 1), Branches(ts, bd, sel, i + 1);
    SubtreeExtends(ts, bd, s, i + 1);
    BranchesExtends(ts, bd, sel, i + 1);
    forall x, y | x in here && y in rest ensures LexLess(x, y) {
      var k := |sel|;
      assert x[..k] == x[..|s|][..k];
      assert s[..k] == sel;
      assert x[k] == x[..|s|][k];
      assert x[..k] == y[..k] && x[k] < y[k];
    }
  }

  /** The lexicographic order is a strict order: irreflexive and asymmetric. */
  lemma LexAsymmetric(a: seq<nat>, b: seq<nat>)
    requires LexLess(a, b)
    ensures a != b && !LexLess(b, a)
  {
    if |a| < |b| && a == b[..|a|] {
      forall k | 0 <= k < |b| && k < |a| ensures !(b[..k] == a[..k] && b[k] < a[k]) {
        assert a[k] == b[..|a|][k];
      }
    } else {
      var k :| 0 <= k < |a| && k < |b| && a[..k] == b[..k] && a[k] < b[k];
      assert |b| < |a| ==> a[..|b|][k] == a[k];
      forall k' | 0 <= k' < |b| && k' < |a| ensures !(b[..k'] == a[..k'] && b[k'] < a[k']) {
        if k' < k {
          assert a[k'] == a[..k][k'] && b[k'] == b[..k][k'];
        } else if k < k' {
          assert a[k] == a[..k'][k] && b[k] == b[..k'][k];
        }
      }
    }
  }

  /** The record after a whole search is the first maximum of the visiting
      order, and that maximum is at least the empty package's 0. */
  lemma OptimumAt(ts: seq<Tour>, attrs: map<AttrId, Attraction>, bd: Bounds) returns (k: int)
    ensures FirstMaxAt(ts, attrs, Subtree(ts, bd, [], 0), k, Optimum(ts, attrs, bd))
    ensures forall j :: 0 <= j < |Subtree(ts, bd, [], 0)| ==>
      NodeValue(ts, attrs, Subtree(ts, bd, [], 0)[j]) <= Optimum(ts, attrs, bd).value
    ensures Optimum(ts, attrs, bd).value >= 0
  {
    var l := Subtree(ts, bd, [], 0);
    var b0 := Best([], -1);
    assert l[0] == [];
    assert NodeValue(ts, attrs, []) == 0;
    FoldMonotone(ts, attrs, b0, l);
    FoldFirstMax(ts, attrs, b0, l);
    k :| FirstMaxAt(ts, attrs, l, k, Optimum(ts, attrs, bd));
  }

  /** What the record holds after a whole search: a reachable package with
      its true value (at least 0, the empty package's); no reachable package
      is worth more; and every reachable package that comes before it in
      visiting order is worth strictly less, so ties go to the first found. */
  lemma OptimumCorrect(ts: seq<Tour>, attrs: map<AttrId, Attraction>, bd: Bounds)
    ensures Explorable(ts, bd, Optimum(ts, attrs, bd).sel)
    ensures Optimum(ts, attrs, bd).value == NodeValue(ts, attrs, Optimum(ts, attrs, bd).sel)
    ensures Optimum(ts, attrs, bd).value >= 0
    ensures forall n :: Explorable(ts, bd, n) ==> NodeValue(ts, attrs, n) <= Optimum(ts, attrs, bd).value
    ensures forall n :: Explorable(ts, bd, n) && LexLess(n, Optimum(ts, attrs, bd).sel) ==>
      NodeValue(ts, attrs, n) < Optimum(ts, attrs, bd).value
  {
    var l := Subtree(ts, bd, [], 0);
    var r := Optimum(ts, attrs, bd);
    var k := OptimumAt(ts, attrs, bd);
    SubtreeReachable(ts, bd, [], 0);
    assert l[k] in l;
    OptimumMaximal(ts, attrs, bd, k);
    OptimumFirst(ts, attrs, bd, k);
  }

  /** No reachable package is worth more than the record. */
  lemma OptimumMaximal(ts: seq<Tour>, attrs: map<AttrId, Attraction>, bd: Bounds, k: int)
    requires forall j :: 0 <= j < |Subtree(ts, bd, [], 0)| ==>
      NodeValue(ts, attrs, Subtree(ts, bd, [], 0)[j]) <= Optimum(ts, attrs, bd).value
    ensures forall n :: Explorable(ts, bd, n) ==> NodeValue(ts, attrs, n) <= Optimum(ts, attrs, bd).value
  {
    var l := Subtree(ts, bd, [], 0);
    forall n | Explorable(ts, bd, n) ensures NodeValue(ts, attrs, n) <= Optimum(ts, attrs, bd).value {
      SubtreeComplete(ts, bd, [], 0, n);
      var j :| 0 <= j < |l| && l[j] == n;
    }
  }

  /** Every reachable package lexicographically before the record is worth
      strictly less. */
  lemma OptimumFirst(ts: seq<Tour>, attrs: map<AttrId, Attraction>, bd: Bounds, k: int)
    requires FirstMaxAt(ts, attrs, Subtree(ts, bd, [], 0), k, Optimum(ts, attrs, bd))
    ensures forall n :: Explorable(ts, bd, n) && LexLess(n, Optimum(ts, attrs, bd).sel) ==>
      NodeValue(ts, attrs, n) < Optimum(ts, attrs, bd).value
  {
    var l := Subtree(ts, bd, [], 0);
    var r := Optimum(ts, attrs, bd);
    SubtreeSorted(ts, bd, [], 0);
    forall n | Explorable(ts, bd, n) && LexLess(n, r.sel) ensures NodeValue(ts, attrs, n) < r.value {
      SubtreeComplete(ts, bd, [], 0, n);
      var j :| 0 <= j < |l| && l[j] == n;
      LexAsymmetric(n, r.sel);
      assert !LexLess(l[k], l[j]) && j != k;
    }
  }

  /** What the caller receives: the recorded positions are increasing
      (each tour at most once, in list order), the package is attraction
      disjoint, keeps to the bounds unless it is empty, and its value is the
      sum over the covered attractions, each counted once. With non-negative
      durations and costs no valid package is worth more. */
  lemma OptimumPackage(ts: seq<Tour>, attrs: map<AttrId, Attraction>, bd: Bounds)
    ensures Increasing(Optimum(ts, attrs, bd).sel) && InRange(ts, Optimum(ts, attrs, bd).sel)
    ensures Disjoint(Select(ts, Optimum(ts, attrs, bd).sel))
    ensures Optimum(ts, attrs, bd).sel != [] ==>
      WithinBounds(bd, Days(Select(ts, Optimum(ts, attrs, bd).sel)), Cost(Select(ts, Optimum(ts, attrs, bd).sel)))
    ensures Optimum(ts, attrs, bd).value == Value(Select(ts, Optimum(ts, attrs, bd).sel), attrs)
    ensures Optimum(ts, attrs, bd).value == AttrSum(Covered(Select(ts, Optimum(ts, attrs, bd).sel)), attrs)
    ensures NonNeg(ts) ==> forall n :: Feasible(ts, bd, n) ==> NodeValue(ts, attrs, n) <= Optimum(ts, attrs, bd).value
  {
    var r := Optimum(ts, attrs, bd);
    OptimumCorrect(ts, attrs, bd);
    ExplorableDisjoint(ts, bd, r.sel);
    if r.sel != [] {
      ExplorableIsFeasible(ts, bd, r.sel);
    }
    ValueOfDisjoint(Select(ts, r.sel), attrs);
    if NonNeg(ts) {
      forall n | Feasible(ts, bd, n) ensures NodeValue(ts, attrs, n) <= r.value {
        FeasibleIsExplorable(ts, bd, n);
      }
    }
  }

  /** `loose` limits nothing that `tight` leaves free and its limits are no
      smaller. */
  predicate Looser(loose: Bounds, tight: Bounds) {
    && (loose.maxDays.None? || (tight.maxDays.Some? && tight.maxDays.value <= loose.maxDays.value))
    && (loose.maxBudget.None? || (tight.maxBudget.Some? && tight.maxBudget.value <= loose.maxBudget.value))
  }

  lemma ExplorableLooser(ts: seq<Tour>, tight: Bounds, loose: Bounds, n: seq<nat>)
    requires Looser(loose, tight)
    requires Explorable(ts, tight, n)
    ensures Explorable(ts, loose, n)
  {
    forall k | 0 <= k < |n| ensures AdmittedAt(ts, loose, n, k) {
      assert AdmittedAt(ts, tight, n, k);
    }
  }

  /** Removing or raising a bound never lowers the optimal value. */
  lemma LooserBoundsNeverHurt(ts: seq<Tour>, attrs: map<AttrId, Attraction>, tight: Bounds, loose: Bounds)
    requires Looser(loose, tight)
    ensures Optimum(ts, attrs, tight).value <= Optimum(ts, attrs, loose).value
  {
    var r := Optimum(ts, attrs, tight);
    OptimumCorrect(ts, attrs, tight);
    OptimumCorrect(ts, attrs, loose);
    ExplorableLooser(ts, tight, loose, r.sel);
  }

  /** When no single tour passes the tests on its own (an empty region, a
      budget below every cost, ...), the result is the empty package with
      value 0 and nothing left over from an earlier record. */
  lemma NothingFits(ts: seq<Tour>, attrs: map<AttrId, Attraction>, bd: Bounds)
    requires forall i :: 0 <= i < |ts| ==> !Admits(bd, [], ts[i])
    ensures Optimum(ts, attrs, bd) == Best([], 0)
  {
    var r := Optimum(ts, attrs, bd);
    OptimumCorrect(ts, attrs, bd);
    FirstAdmitted(ts, bd, r.sel);
  }

  /** The first tour of a reachable package passed the tests against the
      empty package. */
  lemma FirstAdmitted(ts: seq<Tour>, bd: Bounds, n: seq<nat>)
    requires Explorable(ts, bd, n)
    ensures n != [] ==> n[0] < |ts| && Admits(bd, [], ts[n[0]])
  {
    if n != [] {
      assert AdmittedAt(ts, bd, n, 0);
      assert n[..0] == [];
    }
  }

  /** With bounds that are not negative the result always keeps to them,
      the empty package included. */
  lemma OptimumWithinBounds(ts: seq<Tour>, attrs: map<AttrId, Attraction>, bd: Bounds)
    requires bd.maxDays.Some? ==> bd.maxDays.value >= 0
    requires bd.maxBudget.Some? ==> bd.maxBudget.value >= 0
    ensures WithinBounds(bd, Days(Select(ts, Optimum(ts, attrs, bd).sel)), Cost(Select(ts, Optimum(ts, attrs, bd).sel)))
  {
    OptimumPackage(ts, attrs, bd);
    var sel := Optimum(ts, attrs, bd).sel;
    if sel == [] {
      assert Select(ts, sel) == [];
    }
  }

  /** A negative budget over tours that cost nothing less than 0 gives the
      empty package, recorded before any test, whose cost 0 is itself over
      the budget. */
  lemma NegativeBudget(ts: seq<Tour>, attrs: map<AttrId, Attraction>, maxDays: Option<int>, budget: int)
    requires NonNeg(ts)
    requires budget < 0
    ensures Optimum(ts, attrs, Bounds(maxDays, Some(budget))) == Best([], 0)
    ensures !WithinBounds(Bounds(maxDays, Some(budget)), Days([]), Cost([]))
  {
    NothingFits(ts, attrs, Bounds(maxDays, Some(budget)));
  }

  /** A budget of 0 with every tour costing something gives the empty
      package, whatever the day bound. */
  lemma ZeroBudget(ts: seq<Tour>, attrs: map<AttrId, Attraction>, maxDays: Option<int>)
    requires forall i :: 0 <= i < |ts| ==> ts[i].cost > 0
    ensures Optimum(ts, attrs, Bounds(maxDays, Some(0))) == Best([], 0)
  {
    NothingFits(ts, attrs, Bounds(maxDays, Some(0)));
  }
}
