# Tour package optimiser — a verified model

The Lab09 model class keeps a catalogue of tours and cultural attractions.
Tours are keyed by id, each with a region, a duration in days, a cost and
the attractions it visits. Attractions are keyed by id, each with a
cultural value and the tours that visit it.

For a region and an optional maximum number of days and maximum budget, it
builds the package of tours with the greatest total cultural value. No
attraction may be visited twice.

The search is an exhaustive backtracking recursion over the region's tour
list:
- On entry, each call records its partial package if it beats the best so
  far.
- It then tries every later tour in turn, pruning on:
  - attractions already used;
  - the days bound;
  - the budget bound.
- For a tour that passes, it pushes the tour, recurses, and undoes the
  push.

This project models that class and its search in Dafny, in four modules:

- `Entities` (`entities.dfy`): tours, attractions and optional bounds, as
  values.
- `Packages` (`packages.dfy`): sums over a package of tours: days, cost,
  attractions covered, and the value added up tour by tour. Also:
  - the three pruning tests (`Admits`);
  - the position sequences the search can reach (`Explorable`);
  - valid packages (`Feasible`).
- `Enumeration` (`enumeration.dfy`): the search as ghost functions.
  - `Subtree`/`Branches` is the pre-order visiting order.
  - `Fold` is the strict-improvement best record over that order.
  - `Visit`/`VisitFrom`/`Child` follow each call's own control flow on its
    running totals.
  - The theorems say what the final record is:
    - a reachable package;
    - of maximal value;
    - the first maximum found, which is the lexicographically least
      position sequence;
    - attraction-disjoint;
    - within the bounds.
- `Catalog` (`model.dfy`): the imperative class.
  - `Catalog.Model` has the tour and attraction maps and the best-so-far
    fields.
  - `LoadRelations` links tours and attractions from the association
    pairs.
  - `GeneratePackage` resets the record, filters the region and runs
    `Search`/`TryTour`. These share a mutable partial package and
    used-attraction set (`PartialState`).
  - `Search` is proved equal to `Visit`. `VisitIsFold` ties `Visit` to
    `Fold`, and the `Enumeration` theorems then give the result's
    properties.

Three points of the code's behaviour that one might expect otherwise:
- **Zero budget.** One might expect a budget of 0 to give the empty
  package whatever the day bound. It does when every tour costs more than
  0 (`Enumeration.ZeroBudget` carries that hypothesis). A free tour of
  positive value also passes the budget test, and it is chosen.
- **Index sequences.** The loop recurses from `i + 1`, so the positions of
  a package strictly increase. No tour is tried twice and no package is
  visited in two orders.
- **Tie-break.** Ties go to the first optimum found, because the record
  changes only on a strictly larger value. With strictly increasing
  positions visited in pre-order, that first optimum is also the
  lexicographically least position sequence among the reachable optimal ones
  (`Enumeration.OptimumCorrect`).

## Model

| member | source | states |
|---|---|---|
| Packages.AttrSumRemove | model/model.py:147 | the total value of a set of attractions is the same whichever attraction is counted first |
| Packages.AttrSumUnion | model/model.py:147 | the total value of a union of two disjoint attraction sets is the sum of their totals |
| Packages.SumsSnoc | model/model.py:137-153 | appending a tour adds its days, cost, value and attractions to the package's days, cost, value and covered attractions |
| Packages.SelectSnoc | model/model.py:151 | extending the chosen positions by an index of the list appends that tour to the package |
| Packages.SelectInRange | model/model.py:129-130 | positions inside the list pick exactly the tours at those positions, one each |
| Packages.CoveredMembers | model/model.py:153 | an attraction is used by a package iff some tour of the package visits it |
| Packages.DisjointSnoc | model/model.py:133-134 | adding a tour keeps a package attraction-disjoint iff the tour avoids every attraction already used |
| Packages.ExplorablePrefix | model/model.py:129-144 | dropping the last position of a reachable sequence leaves a reachable sequence, and the dropped tour had passed the three tests against it |
| Packages.ExplorableExtend | model/model.py:129-157 | a reachable sequence extended by a later position whose tour passes the tests is reachable |
| Packages.ExplorableDisjoint | model/model.py:133-134 | every package the search reaches is attraction-disjoint |
| Packages.ExplorableIsFeasible | model/model.py:133-144 | every non-empty package the search reaches is valid: increasing positions, disjoint, total days and cost within the bounds |
| Packages.FeasibleIsExplorable | model/model.py:136-144 | with no negative days or costs, every valid package is reached, so pruning on a prefix never cuts off a valid package |
| Packages.ValueOfDisjoint | model/model.py:146-148 | for a disjoint package, adding up the tour values counts every covered attraction exactly once |
| Enumeration.FoldAppend | model/model.py:118-122 | the record after visiting two lists in turn is the record of the second started from the record of the first |
| Enumeration.SubtreeFold | model/model.py:118-129 | a search call checks its own package first, then runs its loop |
| Enumeration.BranchesSkip | model/model.py:132-144 | a loop turn whose tour fails a test leaves the record as it was |
| Enumeration.BranchesTake | model/model.py:150-166 | a loop turn whose tour passes hands the record to the nested call, and the loop resumes from what that call leaves |
| Enumeration.TotalsSnoc | model/model.py:137-153 | the running used set, days, cost and value after a push are those of the extended package |
| Enumeration.AdmitsTotals | model/model.py:132-144 | on totals that match the package, the three tests on the running totals are the tests on the package |
| Enumeration.VisitIsFold | model/model.py:112-170 | a search call with running totals that match its package leaves the strict-improvement record over its pre-order visiting order |
| Enumeration.VisitFromIsFold | model/model.py:128-170 | the loop from any position leaves the strict-improvement record over the packages it visits |
| Enumeration.ChildIsFold | model/model.py:130-170 | one loop turn on matching totals runs the nested call exactly when the tour is admitted, and leaves the record over that call's packages |
| Enumeration.FoldMonotone | model/model.py:119-122 | the record's value never decreases, ends at least at every visited value, and changes only to a strictly larger value |
| Enumeration.FoldFirstMax | model/model.py:119-122 | a record that changed holds a visited package, and every package visited before it is strictly worse |
| Enumeration.SubtreeExtends | model/model.py:129-157 | every package visited below a call extends that call's positions with positions from its start index on |
| Enumeration.BranchesExtends | model/model.py:129-157 | every package the loop visits from position i extends the call's positions, next position at least i |
| Enumeration.SubtreeReachable | model/model.py:129-166 | every package the search visits is reachable through the three tests |
| Enumeration.BranchesReachable | model/model.py:129-166 | every package the loop visits from position i is reachable |
| Enumeration.SubtreeComplete | model/model.py:129-166 | every reachable extension of a call's positions by later positions is visited by that call |
| Enumeration.BranchesComplete | model/model.py:129-166 | the loop from position i visits every reachable extension whose next position is at least i |
| Enumeration.CompleteStep | model/model.py:129-157 | a reachable extension whose next position is i passes the tests at i and lies below the extended call |
| Enumeration.SubtreeSorted | model/model.py:129-157 | a call visits its packages in strictly increasing lexicographic order of positions |
| Enumeration.BranchesSorted | model/model.py:129-157 | the loop visits its packages in strictly increasing lexicographic order of positions |
| Enumeration.OptimumCorrect | model/model.py:63-170 | the final record is a reachable package with its true value, at least 0; no reachable package is worth more; every reachable package lexicographically before it is worth strictly less (ties go to the first found) |
| Enumeration.OptimumPackage | model/model.py:63-170 | the result is increasing positions of the list; its tours are attraction-disjoint; a non-empty result keeps to the bounds; its value is the sum of tour values and equals the value of the distinct covered attractions; with no negative days or costs no valid package is worth more |
| Enumeration.LooserBoundsNeverHurt | model/model.py:136-144 | removing or raising a bound never lowers the optimal value |
| Enumeration.NothingFits | model/model.py:118-144 | when no single tour passes the tests on its own, the result is the empty package with value 0 |
| Enumeration.OptimumWithinBounds | model/model.py:136-144 | with bounds that are not negative, the result keeps to them, the empty package included |
| Enumeration.NegativeBudget | model/model.py:118-144 | with a negative budget over tours that cost no less than 0, the result is the empty package, whose cost 0 is itself over the budget |
| Enumeration.ZeroBudget | model/model.py:141-144 | a budget of 0 with every tour costing more than 0 gives the empty package with value 0, whatever the day bound |
| Catalog.InRegionMembers | model/model.py:80-83 | a tour is in the region's list iff it is a catalogued tour of that region |
| Catalog.InRegionOnce | model/model.py:80-83 | no tour occurs twice in the region's list |
| Catalog.RegionCatalogued | model/model.py:80-83 | every tour of the region's list is catalogued, of that region, and visits only catalogued attractions |
| Catalog.OptimumSummary | model/model.py:63-106 | the returned value is the package's value, at least 0; the package is attraction-disjoint and, when non-empty, within the bounds |
| Catalog.RegionOptimumTours | model/model.py:79-83 | the optimal package is made of distinct catalogued tours of the requested region |
| Catalog.LinkedSnoc | model/model.py:47-59 | one more association pair links its tour and attraction iff both ids are catalogued |
| Catalog.SkipPair | model/model.py:54-56 | a pair naming an uncatalogued tour or attraction links nothing |
| Catalog.LinkPair | model/model.py:58-59 | a pair of catalogued ids adds the attraction to the tour and the tour to the attraction |
| Catalog.LinkedToursLinkBack | model/model.py:58-59 | after linking, every attraction of a tour is catalogued and links back to that tour |
| Catalog.LinkedAttractionsLinkBack | model/model.py:58-59 | after linking, every tour of an attraction is catalogued and links back to that attraction |
| Catalog.LinkedKeepsCatalogue | model/model.py:38-59 | linking the pairs of any association list keeps a consistent catalogue consistent |
| Catalog.PushTracks | model/model.py:150-153 | pushing the tour at position i and adding its cost gives the package and cost of the extended positions |
| Catalog.PartialState.constructor | model/model.py:86-90 | the partial package and the used set start empty |
| Catalog.PartialState.Push | model/model.py:150-153 | the tour is appended and its attractions are added to the used set |
| Catalog.PartialState.Pop | model/model.py:168-170 | the last tour is removed and the attractions it added are taken out of the used set |
| Catalog.Model.constructor | model/model.py:9-23 | the catalogue is stored, the pairs are linked as `LoadRelations` states, the best record starts as the empty package with value -1 and cost 0, and a consistent catalogue stays consistent |
| Catalog.Model.LoadRelations | model/model.py:38-59 | each tour gains exactly the catalogued attractions paired with it, each attraction exactly the catalogued tours paired with it, no key is added or removed, and a consistent catalogue stays consistent |
| Catalog.Model.ToursInRegion | model/model.py:79-83 | the tours of the region in the dictionary's order |
| Catalog.Model.TourValue | model/model.py:147 | the sum of the cultural values of the tour's attractions |
| Catalog.Model.RecordIfBetter | model/model.py:118-122 | a strictly better value replaces the record with the current package, its cost and value; otherwise nothing changes |
| Catalog.Model.Search | model/model.py:112-170 | the record ends as `Visit` of the call, and the partial package and used set end as they began |
| Catalog.Model.TryTour | model/model.py:129-170 | one loop turn: the record ends as `Child` (the three tests, then push, recurse, pop), with the shared containers restored |
| Catalog.Model.GeneratePackage | model/model.py:63-106 | returns the optimum of the region's tours under the bounds, its cost and value: sums over the package, value at least 0, attraction-disjoint, within the bounds when non-empty, distinct catalogued tours of the region |

## Left out

- The storage layer (`RegioneDAO`, `TourDAO.get_tour`, `AttrazioneDAO`, `TourDAO.get_tour_attrazioni`) is not part of this model. The constructor and `LoadRelations` take the tours, the dictionary's iteration order, the attractions and the association pairs as parameters. `load_regioni` only forwards to that layer and is not modelled.
- Costs, budgets and cultural values are integers. Floating-point arithmetic and rounding are not modelled.
- Object identity is modelled by ids. A tour's attraction set and an attraction's tour set hold ids that resolve in the two maps. The source stores the objects themselves.
- The iteration order of the tour dictionary is the field `tourOrder`. That every key is listed once is part of `Valid`.
- The unreachable second `return` at the end of `genera_pacchetto` and the running time of the exhaustive search are not modelled.
- Catalog.Model.GeneratePackage: requires `Valid`, a consistent catalogue. The source takes this for granted because its tours hold attraction objects rather than ids.
- Catalog.Model.Search: the loop body of the recursion is its own method, `TryTour`. Its early `return`s are the source's `continue`s.
- Enumeration.OptimumPackage: "no valid package is worth more" is proved only for tours with non-negative days and costs. Pruning acts on prefixes, so a negative tour could make a valid set unreachable.
- Enumeration.OptimumPackage: the bound guarantee is stated for a non-empty result. The empty package is recorded before any test, so with a negative bound the result breaks it (`Enumeration.NegativeBudget`).
