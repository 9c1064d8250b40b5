/** The records of the tour catalogue: regions, tours and attractions, as
    the storage layer hands them to the model, and the optional bounds of a
    package request. */
module Entities {

  datatype Option<+T> = None | Some(value: T)

  type TourId = int
  type AttrId = int
  type RegionId = string

  /** A tour: region, duration in days, cost, and the ids of the attractions
      it visits (filled in by the association step). */
  datatype Tour = Tour(id: TourId, region: RegionId, days: int, cost: int, attractions: set<AttrId>)

  /** An attraction: its cultural value and the ids of the tours that visit it. */
  datatype Attraction = Attraction(id: AttrId, value: int, tours: set<TourId>)

  /** The optional day and budget limits of a request; `None` means no limit. */
  datatype Bounds = Bounds(maxDays: Option<int>, maxBudget: Option<int>)
}
