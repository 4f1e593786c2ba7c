/**
 * The availability queries of `CarRentalService` (`CheckAvailabilityAsync`,
 * `IsAvailable`, `GetAvailableCar`), as functions of a snapshot of the fleet
 * and of the rental table.
 */
module Availability {
  import opened Outcomes
  import opened Queries
  import opened Text
  import opened Entities
  import opened Conflicts
  import Cars

  /** `r.Id != rentalId` is false only for the rental being re-checked; a null id excludes nothing. */
  predicate IsExcluded(r: Rental, exclude: Option<Guid>) {
    exclude.Some? && r.id == exclude.value
  }

  /** Some rental of the car other than the excluded one blocks [s, e]; the car's rentals
      are those of the table that carry its id. */
  function RentalConflict(car: Car, rentals: seq<Rental>, exclude: Option<Guid>, s: Day, e: Day): (b: bool)
    ensures b <==> exists i :: 0 <= i < |rentals| && rentals[i].carId == car.id &&
                              !IsExcluded(rentals[i], exclude) && RentalBlocks(rentals[i], s, e)
  {
    Any(rentals, (r: Rental) => r.carId == car.id && !IsExcluded(r, exclude) && RentalBlocks(r, s, e))
  }

  /** Some maintenance service of the car blocks [s, e]. */
  function ServiceConflict(car: Car, s: Day, e: Day): (b: bool)
    ensures b <==> exists i :: 0 <= i < |car.services| && ServiceBlocks(car.services[i], s, e)
  {
    Any(car.services, (svc: Service) => ServiceBlocks(svc, s, e))
  }

  /** The clause the three queries share: no other rental of the car and none of its services blocks [s, e]. */
  function IsFree(car: Car, rentals: seq<Rental>, exclude: Option<Guid>, s: Day, e: Day): (free: bool)
    ensures free <==>
      (forall r :: r in rentals && r.carId == car.id && !IsExcluded(r, exclude) ==> !RentalBlocks(r, s, e)) &&
      (forall svc :: svc in car.services ==> !ServiceBlocks(svc, s, e))
  {
    !RentalConflict(car, rentals, exclude, s, e) && !ServiceConflict(car, s, e)
  }

  /** `IsAvailable(carId, startDate, endDate, rentalId)`: some car with that id is free. */
  function IsAvailable(cars: seq<Car>, rentals: seq<Rental>, carId: Guid, s: Day, e: Day, exclude: Option<Guid>): (available: bool)
    ensures available <==> exists c :: c in cars && c.id == carId && IsFree(c, rentals, exclude, s, e)
  {
    var found := FirstOrDefault(cars, (c: Car) => c.id == carId && IsFree(c, rentals, exclude, s, e));
    assert found.None? ==> forall i :: 0 <= i < |cars| ==> !(cars[i].id == carId && IsFree(cars[i], rentals, exclude, s, e));
    found.Some?
  }

  /** An unknown car id is never available. */
  lemma UnknownCarIsUnavailable(cars: seq<Car>, rentals: seq<Rental>, carId: Guid, s: Day, e: Day, exclude: Option<Guid>)
    requires forall c :: c in cars ==> c.id != carId
    ensures !IsAvailable(cars, rentals, carId, s, e, exclude)
  {
  }

  /** The Service clause of the queries is `Car.IsUnavailableForService` on the car's (non-null) list. */
  lemma {:induction false} ServiceClauseAgreesWithDomainCar(car: Car, domain: Cars.Car, s: Day, e: Day)
    requires domain.services == Some(car.services)
    ensures ServiceConflict(car, s, e) == Cars.IsUnavailableForService(domain, s, e)
  {
  }

  /** Car c is of exactly the requested type and model and is free. */
  predicate Offers(c: Car, rentals: seq<Rental>, carType: string, carModel: string, s: Day, e: Day, exclude: Option<Guid>) {
    c.carType == carType && c.model == carModel && IsFree(c, rentals, exclude, s, e)
  }

  /** `GetAvailableCar(carType, carModel, startDate, endDate, rentalId)`: the first car that offers the range, or null. */
  function GetAvailableCar(cars: seq<Car>, rentals: seq<Rental>, carType: string, carModel: string,
                           s: Day, e: Day, exclude: Option<Guid>): (r: Option<Car>)
    ensures r.None? <==> forall c :: c in cars ==> !Offers(c, rentals, carType, carModel, s, e, exclude)
    ensures r.Some? ==> exists i :: 0 <= i < |cars| && cars[i] == r.value &&
                                   Offers(cars[i], rentals, carType, carModel, s, e, exclude) &&
                                   forall j :: 0 <= j < i ==> !Offers(cars[j], rentals, carType, carModel, s, e, exclude)
  {
    FirstOrDefault(cars, (c: Car) => Offers(c, rentals, carType, carModel, s, e, exclude))
  }

  /** The optional type filter: equal ignoring case. */
  function TypeFilter(c: Car, carType: Option<string>): (b: bool)
    ensures carType.None? || carType == Some(c.carType) ==> b
    ensures b && carType.Some? ==> |carType.value| == |c.carType|
    ensures carType.Some? ==> (b <==> Lower(carType.value) == Lower(c.carType))
  {
    carType.None? || Lower(c.carType) == Lower(carType.value)
  }

  /** The optional model filter: null or empty accepts all, otherwise a substring ignoring case. */
  function ModelFilter(c: Car, model: Option<string>): (b: bool)
    ensures model.None? || model == Some("") || model == Some(c.model) ==> b
    ensures b && model.Some? ==> |model.value| <= |c.model|
    ensures model.Some? && model.value != "" ==> (b <==> Contains(Lower(c.model), Lower(model.value)))
  {
    ContainsItself(Lower(c.model));
    model.None? || model.value == "" || Contains(Lower(c.model), Lower(model.value))
  }

  /** The model filter ignores the case of the requested model. */
  lemma ModelFilterIgnoresCase(c: Car, m: string)
    ensures ModelFilter(c, Some(m)) == ModelFilter(c, Some(Lower(m)))
  {
    LowerIsIdempotent(m);
  }

  predicate Bookable(c: Car, rentals: seq<Rental>, s: Day, e: Day, carType: Option<string>, model: Option<string>) {
    TypeFilter(c, carType) && ModelFilter(c, model) && IsFree(c, rentals, None, s, e)
  }

  /** The cars `CheckAvailabilityAsync` fetches: those passing both filters that are free. */
  function BookableCars(cars: seq<Car>, rentals: seq<Rental>, s: Day, e: Day,
                        carType: Option<string>, model: Option<string>): (r: seq<Car>)
    ensures forall c :: c in r <==> c in cars && Bookable(c, rentals, s, e, carType, model)
    ensures forall c :: multiset(r)[c] == if Bookable(c, rentals, s, e, carType, model) then multiset(cars)[c] else 0
  {
    Where(cars, (c: Car) => Bookable(c, rentals, s, e, carType, model))
  }

  /** The grouping key `(r.Type, r.Model)`. */
  function ModelKeys(cs: seq<Car>): (keys: seq<(string, string)>)
    ensures |keys| == |cs|
    ensures forall i :: 0 <= i < |cs| ==> keys[i] == (cs[i].carType, cs[i].model)
  {
    Select(cs, (c: Car) => (c.carType, c.model))
  }

  /** `CarAvailabilityDto` */
  datatype CarAvailability = CarAvailability(carType: string, model: string, count: nat)

  function SumCounts(xs: seq<CarAvailability>): nat {
    if xs == [] then 0 else xs[0].count + SumCounts(xs[1..])
  }

  function ToAvailability(g: Group<(string, string)>): CarAvailability {
    CarAvailability(g.key.0, g.key.1, g.count)
  }

  lemma {:induction false} SumCountsOfGroups(gs: seq<Group<(string, string)>>)
    ensures SumCounts(Select(gs, ToAvailability)) == Total(gs)
  {
    if gs != [] {
      SumCountsOfGroups(gs[1..]);
      assert Select(gs, ToAvailability)[1..] == Select(gs[1..], ToAvailability);
    }
  }

  /** `CheckAvailabilityAsync(startDate, endDate, type, model)`: fails with InvalidRentDates on a
      reversed or past range; otherwise one entry per distinct (type, model) of the bookable cars,
      counting them. */
  function CheckAvailability(cars: seq<Car>, rentals: seq<Rental>, today: Day, s: Day, e: Day,
                             carType: Option<string>, model: Option<string>): (r: Result<seq<CarAvailability>>)
    ensures r.Failure? <==> e < s || s < today
    ensures r.Failure? ==> r.error == InvalidRentDates
    ensures r.Success? ==>
      var free := BookableCars(cars, rentals, s, e, carType, model);
      && (forall i, j :: 0 <= i < j < |r.value| ==>
            (r.value[i].carType, r.value[i].model) != (r.value[j].carType, r.value[j].model))
      && (forall a :: a in r.value ==>
            a.count > 0 && a.count == multiset(ModelKeys(free))[(a.carType, a.model)])
      && (forall c :: c in free ==> exists a :: a in r.value && a.carType == c.carType && a.model == c.model)
      && SumCounts(r.value) == |free|
  {
    if e < s || s < today then Failure(InvalidRentDates)
    else
      var free := BookableCars(cars, rentals, s, e, carType, model);
      var keys := ModelKeys(free);
      var groups := GroupCount(keys);
      var result := Select(groups, ToAvailability);
      AvailabilityFacts(free, keys, groups, result);
      Success(result)
  }

  lemma AvailabilityFacts(free: seq<Car>, keys: seq<(string, string)>, groups: seq<Group<(string, string)>>,
                          result: seq<CarAvailability>)
    requires keys == ModelKeys(free) && groups == GroupCount(keys) && result == Select(groups, ToAvailability)
    ensures forall i, j :: 0 <= i < j < |result| ==>
              (result[i].carType, result[i].model) != (result[j].carType, result[j].model)
    ensures forall a :: a in result ==> a.count > 0 && a.count == multiset(keys)[(a.carType, a.model)]
    ensures forall c :: c in free ==> exists a :: a in result && a.carType == c.carType && a.model == c.model
    ensures SumCounts(result) == |free|
  {
    forall i, j | 0 <= i < j < |result|
      ensures (result[i].carType, result[i].model) != (result[j].carType, result[j].model)
    {
      assert (result[i].carType, result[i].model) == groups[i].key;
      assert (result[j].carType, result[j].model) == groups[j].key;
    }
    forall a | a in result
      ensures a.count > 0 && a.count == multiset(keys)[(a.carType, a.model)]
    {
      var i :| 0 <= i < |result| && result[i] == a;
      CountOfMember(groups, i);
      assert groups[i].key == (a.carType, a.model);
    }
    forall c | c in free
      ensures exists a :: a in result && a.carType == c.carType && a.model == c.model
    {
      var k := (c.carType, c.model);
      var n :| 0 <= n < |free| && free[n] == c;
      assert keys[n] == k;
      assert HasKey(groups, k);
      var i :| 0 <= i < |groups| && groups[i].key == k;
      assert result[i] in result;
    }
    SumCountsOfGroups(groups);
  }
}
