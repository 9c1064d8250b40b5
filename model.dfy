/** The catalogue model: tours and attractions keyed by id, the linking of
    tours and attractions from the stored association pairs, and the
    package generator with its backtracking search and best-so-far record. */
module Catalog {
  import opened Entities
  import opened Packages
  import opened Enumeration

  /** The tour ids listed in `order` are keys of `tm`. */
  predicate Listed(order: seq<TourId>, tm: map<TourId, Tour>) {
    forall k :: 0 <= k < |order| ==> order[k] in tm
  }

  /** `order` lists every key of `tm` exactly once: the iteration order of
      the tour dictionary. */
  predicate IterationOrder(order: seq<TourId>, tm: map<TourId, Tour>) {
    && Listed(order, tm)
    && (forall id :: id in tm ==> id in order)
    && (forall j, k :: 0 <= j < k < |order| ==> order[j] != order[k])
  }

  /** Every record is stored under its own id. */
  predicate KeyedById(tm: map<TourId, Tour>, am: map<AttrId, Attraction>) {
    && (forall id :: id in tm ==> tm[id].id == id)
    && (forall id :: id in am ==> am[id].id == id)
  }

  /** Tour-to-attraction and attraction-to-tour links mirror each other and
      point only at catalogued records. */
  predicate Bidirectional(tm: map<TourId, Tour>, am: map<AttrId, Attraction>) {
    && (forall t, a :: t in tm && a in tm[t].attractions ==> a in am && t in am[a].tours)
    && (forall a, t :: a in am && t in am[a].tours ==> t in tm && a in tm[t].attractions)
  }

  /** The tours of `region`, in the order of `order`. */
  function InRegion(order: seq<TourId>, tm: map<TourId, Tour>, region: RegionId): seq<Tour>
    requires Listed(order, tm)
  {
    if order == [] then []
    else
      var last := tm[order[|order| - 1]];
      InRegion(order[..|order| - 1], tm, region) + (if last.region == region then [last] else [])
  }

  /** A tour is in the filtered list iff it is the record of a listed id and
      belongs to the region. */
  lemma {:induction false} InRegionMembers(order: seq<TourId>, tm: map<TourId, Tour>, region: RegionId, t: Tour)
    requires Listed(order, tm)
    ensures t in InRegion(order, tm, region) <==>
      t.region == region && exists k :: 0 <= k < |order| && tm[order[k]] == t
  {
    if order != [] {
      var front := order[..|order| - 1];
      InRegionMembers(front, tm, region, t);
      if exists k :: 0 <= k < |front| && tm[front[k]] == t {
        var k :| 0 <= k < |front| && tm[front[k]] == t;
        assert tm[order[k]] == t;
      }
      if exists k :: 0 <= k < |order| && tm[order[k]] == t {
        var k :| 0 <= k < |order| && tm[order[k]] == t;
        if k < |front| {
          assert tm[front[k]] == t;
        }
      }
    }
  }

  /** Each tour of the catalogue appears in the filtered list at most once. */
  lemma {:induction false} InRegionOnce(order: seq<TourId>, tm: map<TourId, Tour>, region: RegionId)
    requires Listed(order, tm)
    requires forall j, k :: 0 <= j < k < |order| ==> order[j] != order[k]
    requires forall id :: id in tm ==> tm[id].id == id
    ensures forall j, k :: 0 <= j < k < |InRegion(order, tm, region)| ==>
      InRegion(order, tm, region)[j].id != InRegion(order, tm, region)[k].id
  {
    if order != [] {
      var front, id := order[..|order| - 1], order[|order| - 1];
      var r := InRegion(front, tm, region);
      InRegionOnce(front, tm, region);
      forall j | 0 <= j < |r| ensures r[j].id != id {
        InRegionMembers(front, tm, region, r[j]);
        var k :| 0 <= k < |front| && tm[front[k]] == r[j];
        assert front[k] == order[k];
      }
    }
  }

  /** Every tour of the filtered list is a catalogued tour of the region
      whose attractions are all catalogued. */
  lemma RegionCatalogued(order: seq<TourId>, tm: map<TourId, Tour>, am: map<AttrId, Attraction>, region: RegionId)
    requires Listed(order, tm) && Bidirectional(tm, am)
    ensures forall k :: 0 <= k < |InRegion(order, tm, region)| ==>
      && InRegion(order, tm, region)[k].attractions <= am.Keys
      && InRegion(order, tm, region)[k] in tm.Values
      && InRegion(order, tm, region)[k].region == region
  {
    var ts := InRegion(order, tm, region);
    forall k | 0 <= k < |ts| ensures ts[k].attractions <= am.Keys && ts[k] in tm.Values && ts[k].region == region {
      InRegionMembers(order, tm, region, ts[k]);
      var j :| 0 <= j < |order| && tm[order[j]] == ts[k];
      var id := order[j];
      forall a | a in ts[k].attractions ensures a in am {
        assert a in tm[id].attractions;
      }
    }
  }

  /** What the generator promises about the optimal package of a tour
      list: its value is the sum over its tours and at least 0, no
      attraction occurs twice, and a non-empty package keeps to the bounds. */
  lemma OptimumSummary(ts: seq<Tour>, am: map<AttrId, Attraction>, bd: Bounds)
    ensures var pkg := Select(ts, Optimum(ts, am, bd).sel);
            && Optimum(ts, am, bd).value == Value(pkg, am) && Optimum(ts, am, bd).value >= 0
            && Disjoint(pkg)
            && (pkg != [] ==> WithinBounds(bd, Days(pkg), Cost(pkg)))
  {
    OptimumCorrect(ts, am, bd);
    OptimumPackage(ts, am, bd);
  }

  /** The optimal package of a region is made of distinct catalogued tours
      of that region. */
  lemma RegionOptimumTours(order: seq<TourId>, tm: map<TourId, Tour>, am: map<AttrId, Attraction>, region: RegionId, bd: Bounds)
    requires Catalogue(order, tm, am)
    ensures var ts := InRegion(order, tm, region);
            var pkg := Select(ts, Optimum(ts, am, bd).sel);
            && (forall t :: t in pkg ==> t in tm.Values && t.region == region)
            && (forall j, k :: 0 <= j < k < |pkg| ==> pkg[j].id != pkg[k].id)
  {
    var ts := InRegion(order, tm, region);
    var sel := Optimum(ts, am, bd).sel;
    var pkg := Select(ts, sel);
    OptimumPackage(ts, am, bd);
    SelectInRange(ts, sel);
    RegionCatalogued(order, tm, am, region);
    InRegionOnce(order, tm, region);
    forall j | 0 <= j < |pkg| ensures pkg[j] in tm.Values && pkg[j].region == region {
      assert pkg[j] == ts[sel[j]];
    }
    forall j, k | 0 <= j < k < |pkg| ensures pkg[j].id != pkg[k].id {
      assert pkg[j] == ts[sel[j]] && pkg[k] == ts[sel[k]];
    }
  }

  /** Attractions linked to tour `t` by the pairs of `rel` whose attraction
      id is catalogued in `am`. */
  function LinkedAttractions(rel: seq<(TourId, AttrId)>, t: TourId, am: map<AttrId, Attraction>): set<AttrId> {
    set k | 0 <= k < |rel| && rel[k].0 == t && rel[k].1 in am :: rel[k].1
  }

  /** Tours linked to attraction `a` by the pairs of `rel` whose tour id is
      catalogued in `tm`. */
  function LinkedTours(rel: seq<(TourId, AttrId)>, a: AttrId, tm: map<TourId, Tour>): set<TourId> {
    set k | 0 <= k < |rel| && rel[k].1 == a && rel[k].0 in tm :: rel[k].0
  }

  /** One more pair links its two ids when both are catalogued, and nothing
      otherwise. */
  lemma LinkedSnoc(rel: seq<(TourId, AttrId)>, p: (TourId, AttrId), tm: map<TourId, Tour>, am: map<AttrId, Attraction>)
    ensures forall t :: (LinkedAttractions(rel + [p], t, am) ==
      LinkedAttractions(rel, t, am) + (if p.0 == t && p.1 in am then {p.1} else {}))
    ensures forall a :: (LinkedTours(rel + [p], a, tm) ==
      LinkedTours(rel, a, tm) + (if p.1 == a && p.0 in tm then {p.0} else {}))
  {
    var r := rel + [p];
    assert forall k :: 0 <= k < |rel| ==> r[k] == rel[k];
    assert r[|rel|] == p;
  }

  /** The catalogue is consistent: the order lists the tours, records sit
      under their own ids, and the links agree in both directions. */
  predicate Catalogue(order: seq<TourId>, tm: map<TourId, Tour>, am: map<AttrId, Attraction>) {
    IterationOrder(order, tm) && KeyedById(tm, am) && Bidirectional(tm, am)
  }

  /** `tm` and `am` are `tm0` and `am0` with the pairs of `rel` linked. */
  predicate LinkedUpTo(tm0: map<TourId, Tour>, am0: map<AttrId, Attraction>,
                       tm: map<TourId, Tour>, am: map<AttrId, Attraction>, rel: seq<(TourId, AttrId)>) {
    && tm.Keys == tm0.Keys && am.Keys == am0.Keys
    && (forall t :: t in tm ==>
          tm[t] == tm0[t].(attractions := tm0[t].attractions + LinkedAttractions(rel, t, am0)))
    && (forall a :: a in am ==>
          am[a] == am0[a].(tours := am0[a].tours + LinkedTours(rel, a, tm0)))
  }

  /** A pair naming an id that is not catalogued links nothing. */
  lemma SkipPair(tm0: map<TourId, Tour>, am0: map<AttrId, Attraction>,
                 tm: map<TourId, Tour>, am: map<AttrId, Attraction>, rel: seq<(TourId, AttrId)>, p: (TourId, AttrId))
    requires LinkedUpTo(tm0, am0, tm, am, rel)
    requires p.0 !in tm || p.1 !in am
    ensures LinkedUpTo(tm0, am0, tm, am, rel + [p])
  {
    LinkedSnoc(rel, p, tm0, am0);
  }

  /** A pair of catalogued ids adds the attraction to the tour and the tour
      to the attraction. */
  lemma LinkPair(tm0: map<TourId, Tour>, am0: map<AttrId, Attraction>,
                 tm: map<TourId, Tour>, am: map<AttrId, Attraction>, rel: seq<(TourId, AttrId)>, p: (TourId, AttrId))
    requires LinkedUpTo(tm0, am0, tm, am, rel)
    requires p.0 in tm && p.1 in am
    ensures LinkedUpTo(tm0, am0, tm[p.0 := tm[p.0].(attractions := tm[p.0].attractions + {p.1})],
                       am[p.1 := am[p.1].(tours := am[p.1].tours + {p.0})], rel + [p])
  {
    LinkedSnoc(rel, p, tm0, am0);
  }

  /** After linking, every attraction of a tour is catalogued and links
      back to that tour. */
  lemma LinkedToursLinkBack(tm0: map<TourId, Tour>, am0: map<AttrId, Attraction>,
                            tm: map<TourId, Tour>, am: map<AttrId, Attraction>, rel: seq<(TourId, AttrId)>)
    requires Bidirectional(tm0, am0)
    requires LinkedUpTo(tm0, am0, tm, am, rel)
    ensures forall t, a :: t in tm && a in tm[t].attractions ==> a in am && t in am[a].tours
  {
    forall t, a | t in tm && a in tm[t].attractions ensures a in am && t in am[a].tours {
      if a !in tm0[t].attractions {
        var k :| 0 <= k < |rel| && rel[k].0 == t && rel[k].1 == a && rel[k].1 in am0;
        assert t in LinkedTours(rel, a, tm0);
      }
    }
  }

  /** After linking, every tour of an attraction is catalogued and links
      back to that attraction. */
  lemma LinkedAttractionsLinkBack(tm0: map<TourId, Tour>, am0: map<AttrId, Attraction>,
                                  tm: map<TourId, Tour>, am: map<AttrId, Attraction>, rel: seq<(TourId, AttrId)>)
    requires Bidirectional(tm0, am0)
    requires LinkedUpTo(tm0, am0, tm, am, rel)
    ensures forall a, t :: a in am && t in am[a].tours ==> t in tm && a in tm[t].attractions
  {
    forall a, t | a in am && t in am[a].tours ensures t in tm && a in tm[t].attractions {
      if t !in am0[a].tours {
        var k :| 0 <= k < |rel| && rel[k].1 == a && rel[k].0 == t && rel[k].0 in tm0;
        assert a in LinkedAttractions(rel, t, am0);
      }
    }
  }

  /** Linking the catalogued pairs of any association list keeps a
      consistent catalogue consistent. */
  lemma LinkedKeepsCatalogue(order: seq<TourId>, tm0: map<TourId, Tour>, am0: map<AttrId, Attraction>,
                             tm: map<TourId, Tour>, am: map<AttrId, Attraction>, rel: seq<(TourId, AttrId)>)
    requires Catalogue(order, tm0, am0)
    requires LinkedUpTo(tm0, am0, tm, am, rel)
    ensures Catalogue(order, tm, am)
  {
    LinkedToursLinkBack(tm0, am0, tm, am, rel);
    LinkedAttractionsLinkBack(tm0, am0, tm, am, rel);
  }

  /** `package` is the package of `sel` and `cost` its cost. */
  ghost predicate Tracks(ts: seq<Tour>, sel: seq<nat>, package: seq<Tour>, cost: int) {
    package == Select(ts, sel) && cost == Cost(package)
  }

  /** Pushing the tour at position `i` and adding its cost tracks the
      package of `sel + [i]`. */
  lemma PushTracks(ts: seq<Tour>, sel: seq<nat>, i: nat, package: seq<Tour>, cost: int)
    requires i < |ts|
    requires Tracks(ts, sel, package, cost)
    ensures Tracks(ts, sel + [i], package + [ts[i]], cost + ts[i].cost)
  {
    SelectSnoc(ts, sel, i);
    SumsSnoc(package, ts[i], map[]);
  }

  /** The two containers the search shares across its recursive calls: the
      partial package and the set of attractions it already uses. */
  class PartialState {
    var package: seq<Tour>
    var used: set<AttrId>

    constructor ()
      ensures package == [] && used == {}
    {
      package := [];
      used := {};
    }

    /** Appends a tour and marks its attractions as used. */
    method Push(tour: Tour)
      modifies this
      ensures package == old(package) + [tour]
      ensures used == old(used) + tour.attractions
    {
      package := package + [tour];
      used := used + tour.attractions;
    }

    /** Removes the last tour and unmarks the attractions it added: the
        inverse of `Push` when those attractions were not used before. */
    method Pop(added: set<AttrId>)
      requires package != []
      modifies this
      ensures package == old(package)[..|old(package)| - 1]
      ensures used == old(used) - added
    {
      package := package[..|package| - 1];
      used := used - added;
    }
  }

  class Model {
    var tourMap: map<TourId, Tour>
    /** The order in which the tour dictionary yields its entries. */
    var tourOrder: seq<TourId>
    var attractionMap: map<AttrId, Attraction>

    var bestPackage: seq<Tour>
    var bestValue: int
    var bestCost: int
    /** The positions of `bestPackage` in the tour list of the current search. */
    ghost var bestSel: seq<nat>

    ghost predicate Valid()
      reads this
    {
      Catalogue(tourOrder, tourMap, attractionMap)
    }

    /** The best record names a package of `ts` and holds its cost. */
    ghost predicate Recorded(ts: seq<Tour>)
      reads this
    {
      Tracks(ts, bestSel, bestPackage, bestCost)
    }

    /** Builds the model from the stored tours (with their iteration order),
        attractions and association pairs. */
    constructor (tours: map<TourId, Tour>, order: seq<TourId>, attractions: map<AttrId, Attraction>,
                 relations: seq<(TourId, AttrId)>)
      ensures Catalogue(order, tours, attractions) ==> Valid()
      ensures tourOrder == order
      ensures tourMap.Keys == tours.Keys && attractionMap.Keys == attractions.Keys
      ensures forall t :: t in tourMap ==>
        tourMap[t] == tours[t].(attractions := tours[t].attractions + LinkedAttractions(relations, t, attractions))
      ensures forall a :: a in attractionMap ==>
        attractionMap[a] == attractions[a].(tours := attractions[a].tours + LinkedTours(relations, a, tours))
      ensures bestPackage == [] && bestValue == -1 && bestCost == 0
    {
      tourMap := tours;
      tourOrder := order;
      attractionMap := attractions;
      bestPackage := [];
      bestValue := -1;
      bestCost := 0;
      bestSel := [];
      new;
      LoadRelations(relations);
    }

    /** Links every pair whose tour id and attraction id are both catalogued,
        in both directions, and skips the others. */
    method LoadRelations(relations: seq<(TourId, AttrId)>)
      modifies this`tourMap, this`attractionMap
      ensures tourMap.Keys == old(tourMap).Keys && attractionMap.Keys == old(attractionMap).Keys
      ensures forall t :: t in tourMap ==>
        tourMap[t] == old(tourMap)[t].(attractions := old(tourMap)[t].attractions
                                                      + LinkedAttractions(relations, t, old(attractionMap)))
      ensures forall a :: a in attractionMap ==>
        attractionMap[a] == old(attractionMap)[a].(tours := old(attractionMap)[a].tours
                                                            + LinkedTours(relations, a, old(tourMap)))
      ensures old(Valid()) ==> Valid()
    {
      ghost var tm0, am0 := tourMap, attractionMap;
      for j := 0 to |relations|
        invariant LinkedUpTo(tm0, am0, tourMap, attractionMap, relations[..j])
      {
        var (idTour, idAttr) := relations[j];
        assert relations[..j + 1] == relations[..j] + [relations[j]];
        if idTour !in tourMap || idAttr !in attractionMap {
          SkipPair(tm0, am0, tourMap, attractionMap, relations[..j], relations[j]);
          continue;
        }
        var tour := tourMap[idTour];
        var attraction := attractionMap[idAttr];
        LinkPair(tm0, am0, tourMap, attractionMap, relations[..j], relations[j]);
        tourMap := tourMap[idTour := tour.(attractions := tour.attractions + {idAttr})];
        attractionMap := attractionMap[idAttr := attraction.(tours := attraction.tours + {idTour})];
      }
      assert relations[..|relations|] == relations;
      if Catalogue(tourOrder, tm0, am0) {
        LinkedKeepsCatalogue(tourOrder, tm0, am0, tourMap, attractionMap, relations);
      }
    }

    /** The tours of the region, in the dictionary's order. */
    method ToursInRegion(region: RegionId) returns (list: seq<Tour>)
      requires Listed(tourOrder, tourMap)
      ensures list == InRegion(tourOrder, tourMap, region)
    {
      list := [];
      for k := 0 to |tourOrder|
        invariant list == InRegion(tourOrder[..k], tourMap, region)
      {
        assert tourOrder[..k + 1][..k] == tourOrder[..k];
        var tour := tourMap[tourOrder[k]];
        if tour.region == region {
          list := list + [tour];
        }
      }
      assert tourOrder[..|tourOrder|] == tourOrder;
    }

    /** Cultural value of one tour: the values of its attractions added up. */
    method TourValue(tour: Tour) returns (v: int)
      requires tour.attractions <= attractionMap.Keys
      ensures v == TourWorth(tour, attractionMap)
    {
      v := 0;
      var rest := tour.attractions;
      while rest != {}
        invariant rest <= tour.attractions
        invariant v + AttrSum(rest, attractionMap) == AttrSum(tour.attractions, attractionMap)
        decreases rest
      {
        assert (forall a :: a !in rest) ==> rest == {};
        var a :| a in rest;
        AttrSumRemove(rest, attractionMap, a);
        v := v + attractionMap[a].value;
        rest := rest - {a};
      }
    }

    /** The entry check of a search call: a package strictly better than
        the best so far becomes the best, with its cost. */
    method RecordIfBetter(ts: seq<Tour>, package: seq<Tour>, cost: int, value: int, ghost sel: seq<nat>)
      requires Tracks(ts, sel, package, cost)
      requires Recorded(ts)
      modifies this`bestPackage, this`bestValue, this`bestCost, this`bestSel
      ensures Best(bestSel, bestValue) == Record(old(Best(bestSel, bestValue)), sel, value)
      ensures Recorded(ts)
    {
      if value > bestValue {
        bestValue := value;
        bestPackage := package;
        bestCost := cost;
        bestSel := sel;
      }
    }

    /** One search call on the partial package of positions `sel` with the
        running totals `days`, `cost`, `value` and the used attractions:
        record the package if it beats the best, stop past the end of the
        list, and otherwise try each later tour in turn. The record ends as
        `Visit` says; the shared containers end as they began. */
    method Search(start: nat, ts: seq<Tour>, st: PartialState, days: int, cost: int, value: int,
                  maxDays: Option<int>, maxBudget: Option<int>, ghost sel: seq<nat>)
      requires start <= |ts|
      requires forall k :: 0 <= k < |ts| ==> ts[k].attractions <= attractionMap.Keys
      requires Tracks(ts, sel, st.package, cost)
      requires Recorded(ts)
      modifies this`bestPackage, this`bestValue, this`bestCost, this`bestSel, st
      ensures st.package == old(st.package) && st.used == old(st.used)
      ensures Best(bestSel, bestValue) ==
        Visit(ts, attractionMap, Bounds(maxDays, maxBudget), sel, start,
              Totals(old(st.used), days, cost, value), old(Best(bestSel, bestValue)))
      ensures Recorded(ts)
      decreases |ts| - start, 1
    {
      ghost var bd := Bounds(maxDays, maxBudget);
      ghost var tot := Totals(st.used, days, cost, value);
      ghost var target := Visit(ts, attractionMap, bd, sel, start, tot, Best(bestSel, bestValue));
      RecordIfBetter(ts, st.package, cost, value, sel);

      if start >= |ts| {
        return;
      }

      for i := start to |ts|
        invariant st.package == old(st.package) && st.used == old(st.used)
        invariant VisitFrom(ts, attractionMap, bd, sel, i, tot, Best(bestSel, bestValue)) == target
        invariant Recorded(ts)
      {
        TryTour(i, ts, st, days, cost, value, maxDays, maxBudget, sel);
      }
    }

    /** One turn of the search loop: the three tests on the tour at position
        `i` (attractions not yet used, days and budget within their limits);
        for a tour that passes them, push it, search on from `i + 1`, and
        undo the push. */
    method TryTour(i: nat, ts: seq<Tour>, st: PartialState, days: int, cost: int, value: int,
                   maxDays: Option<int>, maxBudget: Option<int>, ghost sel: seq<nat>)
      requires i < |ts|
      requires forall k :: 0 <= k < |ts| ==> ts[k].attractions <= attractionMap.Keys
      requires Tracks(ts, sel, st.package, cost)
      requires Recorded(ts)
      modifies this`bestPackage, this`bestValue, this`bestCost, this`bestSel, st
      ensures st.package == old(st.package) && st.used == old(st.used)
      ensures Best(bestSel, bestValue) ==
        Child(ts, attractionMap, Bounds(maxDays, maxBudget), sel, i,
              Totals(old(st.used), days, cost, value), old(Best(bestSel, bestValue)))
      ensures Recorded(ts)
      decreases |ts| - i, 0
    {
      var tour := ts[i];
      if !(tour.attractions !! st.used) {
        return;
      }

      var newDays := days + tour.days;
      if maxDays.Some? && newDays > maxDays.value {
        return;
      }

      var newCost := cost + tour.cost;
      if maxBudget.Some? && newCost > maxBudget.value {
        return;
      }

      var tourValue := TourValue(tour);
      var newValue := value + tourValue;

      ghost var before, usedBefore := st.package, st.used;
      PushTracks(ts, sel, i, st.package, cost);
      st.Push(tour);

      Search(i + 1, ts, st, newDays, newCost, newValue, maxDays, maxBudget, sel + [i]);

      st.Pop(tour.attractions);
      assert st.used == usedBefore;
      assert st.package == before by {
        assert (before + [tour])[..|before|] == before;
      }
    }

    /** The optimal package of the region under the optional bounds, its
        cost and its value. The record is reset first, so the result depends
        only on the catalogue and the arguments. */
    method GeneratePackage(region: RegionId, maxDays: Option<int>, maxBudget: Option<int>)
      returns (pkg: seq<Tour>, cost: int, value: int)
      requires Valid()
      modifies this`bestPackage, this`bestValue, this`bestCost, this`bestSel
      ensures var ts := InRegion(tourOrder, tourMap, region);
              var r := Optimum(ts, attractionMap, Bounds(maxDays, maxBudget));
              pkg == Select(ts, r.sel) && value == r.value && bestSel == r.sel
      ensures pkg == bestPackage && cost == bestCost && value == bestValue
      ensures cost == Cost(pkg) && value == Value(pkg, attractionMap) && value >= 0
      ensures Disjoint(pkg)
      ensures pkg != [] ==> WithinBounds(Bounds(maxDays, maxBudget), Days(pkg), cost)
      ensures forall t :: t in pkg ==> t in tourMap.Values && t.region == region
      ensures forall j, k :: 0 <= j < k < |pkg| ==> pkg[j].id != pkg[k].id
    {
      bestPackage := [];
      bestValue := -1;
      bestCost := 0;
      bestSel := [];

      var ts := ToursInRegion(region);
      RegionCatalogued(tourOrder, tourMap, attractionMap, region);

      var st := new PartialState();
      Search(0, ts, st, 0, 0, 0, maxDays, maxBudget, []);

      VisitIsFold(ts, attractionMap, Bounds(maxDays, maxBudget), [], 0, Totals({}, 0, 0, 0), Best([], -1));
      OptimumSummary(ts, attractionMap, Bounds(maxDays, maxBudget));
      RegionOptimumTours(tourOrder, tourMap, attractionMap, region, Bounds(maxDays, maxBudget));
      pkg, cost, value := bestPackage, bestCost, bestValue;
    }
  }
}
