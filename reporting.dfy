/**
 * `RentalReportingService`: the most rented car type over a date range and
 * the services scheduled for the next two weeks, over a snapshot of the fleet
 * and of the rental table.
 */
module Reporting {
  import opened Outcomes
  import opened Queries
  import opened Entities
  import opened Conflicts

  /** A rental is counted when it shares a day with [s, e]; unlike availability, there is no grace day. */
  predicate Counted(r: Rental, s: Day, e: Day) {
    Overlaps(r.startDate, r.endDate, s, e)
  }

  function MatchingRentals(rentals: seq<Rental>, s: Day, e: Day): (ms: seq<Rental>)
    ensures forall r :: r in ms <==> r in rentals && Counted(r, s, e)
    ensures forall r :: multiset(ms)[r] == if Counted(r, s, e) then multiset(rentals)[r] else 0
  {
    Where(rentals, (r: Rental) => Counted(r, s, e))
  }

  /** The navigation property `r.Car`: the car with the rental's car id, or null. */
  function CarOf(cars: seq<Car>, r: Rental): (c: Option<Car>)
    ensures c.None? <==> forall x :: x in cars ==> x.id != r.carId
    ensures c.Some? ==> c.value in cars && c.value.id == r.carId
  {
    FirstOrDefault(cars, (x: Car) => x.id == r.carId)
  }

  /** The rental has a car (`r.Car != null`). */
  predicate HasCar(cars: seq<Car>, r: Rental) {
    CarOf(cars, r).Some?
  }

  /** The rental has a car, of type t. */
  predicate RentedAs(cars: seq<Car>, r: Rental, t: string) {
    CarOf(cars, r).Some? && CarOf(cars, r).value.carType == t
  }

  /** `Where(r => r.Car != null)` followed by the grouping key `r.Car.Type`, in rental order. */
  function RentedTypes(cars: seq<Car>, ms: seq<Rental>): (types: seq<string>)
    ensures |types| <= |ms|
    ensures forall t :: t in types <==> exists r :: r in ms && RentedAs(cars, r, t)
    ensures types == [] <==> forall r :: r in ms ==> CarOf(cars, r).None?
  {
    if ms == [] then []
    else
      var rest := RentedTypes(cars, ms[1..]);
      assert forall r :: r in ms[1..] ==> r in ms;
      assert forall r :: r in ms ==> r == ms[0] || r in ms[1..];
      match CarOf(cars, ms[0])
      case None => rest
      case Some(c) =>
        assert RentedAs(cars, ms[0], c.carType);
        [c.carType] + rest
  }

  /** One type is listed per rental with a car. */
  lemma {:induction false} RentedTypesLength(cars: seq<Car>, ms: seq<Rental>)
    ensures |RentedTypes(cars, ms)| == |Where(ms, (r: Rental) => HasCar(cars, r))|
  {
    if ms != [] {
      RentedTypesLength(cars, ms[1..]);
      assert Where(ms, (r: Rental) => HasCar(cars, r))
          == (if HasCar(cars, ms[0]) then [ms[0]] else []) + Where(ms[1..], (r: Rental) => HasCar(cars, r));
    }
  }

  /** Each type is listed as often as there are rentals of a car of that type. */
  lemma {:induction false} RentedTypesMultiplicity(cars: seq<Car>, ms: seq<Rental>, t: string)
    ensures multiset(RentedTypes(cars, ms))[t] == |Where(ms, (r: Rental) => RentedAs(cars, r, t))|
  {
    if ms != [] {
      RentedTypesMultiplicity(cars, ms[1..], t);
      assert Where(ms, (r: Rental) => RentedAs(cars, r, t))
          == (if RentedAs(cars, ms[0], t) then [ms[0]] else []) + Where(ms[1..], (r: Rental) => RentedAs(cars, r, t));
    }
  }

  /** `OrderByDescending(g => g.Count).First()`: a stable sort puts first the earliest group of largest count. */
  function FirstMaxIndex<K>(gs: seq<Group<K>>): (i: nat)
    requires gs != []
    ensures i < |gs|
    ensures forall j :: 0 <= j < |gs| ==> gs[j].count <= gs[i].count
    ensures forall j :: 0 <= j < i ==> gs[j].count < gs[i].count
  {
    if |gs| == 1 then 0
    else
      var k := FirstMaxIndex(gs[1..]);
      if gs[0].count >= gs[k + 1].count then 0 else k + 1
  }

  /** `MostRentedCarTypeDto`, with the utilisation kept as the exact ratio count / total. */
  datatype MostRentedCarType = MostRentedCarType(carType: string, count: nat, total: nat)

  /** `UtilizationPercentage`: count / total * 100, and 0 for the default state. */
  function Utilisation(m: MostRentedCarType): (pct: real)
    ensures m.count <= m.total ==> 0.0 <= pct <= 100.0
  {
    if m.total == 0 then 0.0 else 100.0 * (m.count as real) / (m.total as real)
  }

  /** `GetMostRentedCarTypeAsync(startDate, endDate)` */
  function GetMostRentedCarType(cars: seq<Car>, rentals: seq<Rental>, s: Day, e: Day): (r: Result<MostRentedCarType>)
    ensures r.Failure? ==> r.error in {InvalidRentDates, NoElements}
    ensures r == Failure(InvalidRentDates) <==> e < s
    ensures s <= e && (forall x :: x in rentals ==> !Counted(x, s, e)) ==> r == Success(MostRentedCarType("None", 0, 0))
    ensures r == Failure(NoElements) <==>
              s <= e && (exists x :: x in rentals && Counted(x, s, e)) &&
              forall x :: x in rentals && Counted(x, s, e) ==> CarOf(cars, x).None?
    ensures r.Success? && r.value.total > 0 ==>
              var types := RentedTypes(cars, MatchingRentals(rentals, s, e));
              && r.value.total == |types|
              && r.value.carType in types
              && r.value.count == multiset(types)[r.value.carType]
              && forall t :: multiset(types)[t] <= r.value.count
    ensures r.Success? ==> r.value.count <= r.value.total
    ensures r.Success? && (exists x :: x in rentals && Counted(x, s, e)) ==> r.value.total > 0
  {
    if e < s then Failure(InvalidRentDates)
    else
      var ms := MatchingRentals(rentals, s, e);
      if ms == [] then Success(MostRentedCarType("None", 0, 0))
      else
        var types := RentedTypes(cars, ms);
        var groups := GroupCount(types);
        if groups == [] then Failure(NoElements)
        else
          var i := FirstMaxIndex(groups);
          MostRentedFacts(types, groups, i);
          Success(MostRentedCarType(groups[i].key, groups[i].count, Total(groups)))
  }

  /** The group chosen by FirstMaxIndex has the largest multiplicity among the keys. */
  lemma MostRentedFacts(types: seq<string>, groups: seq<Group<string>>, i: nat)
    requires groups == GroupCount(types) && i < |groups|
    requires forall j :: 0 <= j < |groups| ==> groups[j].count <= groups[i].count
    ensures Total(groups) == |types| > 0
    ensures groups[i].key in types && groups[i].count == multiset(types)[groups[i].key]
    ensures forall t :: multiset(types)[t] <= groups[i].count
  {
    CountOfMember(groups, i);
    assert HasKey(groups, groups[i].key);
    forall t ensures multiset(types)[t] <= groups[i].count {
      if t in types {
        var j :| 0 <= j < |groups| && groups[j].key == t;
        CountOfMember(groups, j);
      }
    }
  }

  /** A type rented strictly more often than every other type in the range is the one reported. */
  lemma StrictModeIsReported(cars: seq<Car>, rentals: seq<Rental>, s: Day, e: Day, t: string)
    requires GetMostRentedCarType(cars, rentals, s, e).Success?
    requires var types := RentedTypes(cars, MatchingRentals(rentals, s, e));
             t in types && forall u :: u != t ==> multiset(types)[u] < multiset(types)[t]
    ensures var r := GetMostRentedCarType(cars, rentals, s, e).value;
            r.carType == t && r.count == multiset(RentedTypes(cars, MatchingRentals(rentals, s, e)))[t]
  {
    var types := RentedTypes(cars, MatchingRentals(rentals, s, e));
    var ms := MatchingRentals(rentals, s, e);
    assert exists x :: x in rentals && Counted(x, s, e) by {
      var k :| 0 <= k < |types| && types[k] == t;
      assert ms != [];
      assert ms[0] in ms;
    }
  }

  /** Two SUV rentals and one Sedan rental in range: SUV, two of three, 200/3 percent. */
  lemma TwoSuvsAndASedan(cars: seq<Car>, rentals: seq<Rental>)
    requires cars == [Car(1, "SUV", "RAV4", []), Car(2, "Sedan", "Civic", [])]
    requires rentals == [Rental(10, 7, 1, 0, 2), Rental(11, 8, 1, 5, 6), Rental(12, 9, 2, 1, 1)]
    ensures GetMostRentedCarType(cars, rentals, 0, 10) == Success(MostRentedCarType("SUV", 2, 3))
    ensures Utilisation(GetMostRentedCarType(cars, rentals, 0, 10).value) == 200.0 / 3.0
  {
    ExampleTypes(cars, rentals);
    WhereAll(rentals, (r: Rental) => Counted(r, 0, 10));
    var types := ["SUV", "SUV", "Sedan"];
    assert RentedTypes(cars, MatchingRentals(rentals, 0, 10)) == types;
    ExampleMode(types);
    ExampleSucceeds(cars, rentals);
    StrictModeIsReported(cars, rentals, 0, 10, "SUV");
    TwoOfThree();
  }

  lemma TwoOfThree()
    ensures Utilisation(MostRentedCarType("SUV", 2, 3)) == 200.0 / 3.0
  {
  }

  lemma ExampleMode(types: seq<string>)
    requires types == ["SUV", "SUV", "Sedan"]
    ensures "SUV" in types && multiset(types)["SUV"] == 2 && |types| == 3
    ensures forall u :: u != "SUV" ==> multiset(types)[u] < multiset(types)["SUV"]
  {
    assert multiset(types)["SUV"] == 2 && multiset(types)["Sedan"] == 1;
    forall u | u != "SUV" ensures multiset(types)[u] < 2 {
      assert u == "Sedan" || u !in types;
    }
  }

  lemma ExampleSucceeds(cars: seq<Car>, rentals: seq<Rental>)
    requires cars == [Car(1, "SUV", "RAV4", []), Car(2, "Sedan", "Civic", [])]
    requires rentals == [Rental(10, 7, 1, 0, 2), Rental(11, 8, 1, 5, 6), Rental(12, 9, 2, 1, 1)]
    ensures GetMostRentedCarType(cars, rentals, 0, 10).Success?
    ensures GetMostRentedCarType(cars, rentals, 0, 10).value.total > 0
  {
    assert rentals[0] in rentals && Counted(rentals[0], 0, 10);
    assert CarOf(cars, rentals[0]).Some?;
  }

  lemma ExampleTypes(cars: seq<Car>, rentals: seq<Rental>)
    requires cars == [Car(1, "SUV", "RAV4", []), Car(2, "Sedan", "Civic", [])]
    requires rentals == [Rental(10, 7, 1, 0, 2), Rental(11, 8, 1, 5, 6), Rental(12, 9, 2, 1, 1)]
    ensures RentedTypes(cars, rentals) == ["SUV", "SUV", "Sedan"]
  {
    var suv := CarOf(cars, rentals[0]);
    assert suv.Some? && suv.value == cars[0];
    var sedan := CarOf(cars, rentals[2]);
    assert sedan.Some? && sedan.value == cars[1];
    assert rentals[2..][1..] == [];
    assert RentedTypes(cars, rentals[2..]) == ["Sedan"];
    assert rentals[1..][1..] == rentals[2..];
    assert rentals[1] == Rental(11, 8, 1, 5, 6) && CarOf(cars, rentals[1]) == suv;
    assert RentedTypes(cars, rentals[1..]) == ["SUV", "Sedan"];
  }

  /** The look-ahead of `GetScheduledServicesNextTwoWeeksAsync`: [today, today + 14]. */
  const LookaheadDays: int := 14

  function InWindow(svc: Service, today: Day): (b: bool)
    ensures svc.startDate == today || svc.startDate == today + 14 ==> b
    ensures svc.startDate == today - 1 || svc.startDate == today + 15 ==> !b
    ensures b ==> 0 <= svc.startDate - today <= 14
  {
    today <= svc.startDate <= today + LookaheadDays
  }

  /** `ScheduledServiceDto` */
  datatype ScheduledService = ScheduledService(carId: Guid, carType: string, carModel: string,
                                               serviceStartDate: Day, durationInDays: int)

  function Scheduled(car: Car, svc: Service): ScheduledService {
    ScheduledService(car.id, car.carType, car.model, svc.startDate, svc.durationInDays)
  }

  function ServiceStart(x: ScheduledService): int {
    x.serviceStartDate
  }

  /** One car's part of the `SelectMany`: its services in the window, in list order. */
  function UpcomingOf(car: Car, today: Day): (r: seq<ScheduledService>)
    ensures forall x :: x in r <==> exists svc :: svc in car.services && InWindow(svc, today) && x == Scheduled(car, svc)
  {
    var inWindow := Where(car.services, (svc: Service) => InWindow(svc, today));
    var r := Select(inWindow, (svc: Service) => Scheduled(car, svc));
    forall x ensures x in r <==> exists svc :: svc in car.services && InWindow(svc, today) && x == Scheduled(car, svc) {
      if x in r {
        var i :| 0 <= i < |r| && r[i] == x;
        assert inWindow[i] in inWindow;
      }
      if exists svc :: svc in car.services && InWindow(svc, today) && x == Scheduled(car, svc) {
        var svc :| svc in car.services && InWindow(svc, today) && x == Scheduled(car, svc);
        assert svc in inWindow;
        var i :| 0 <= i < |inWindow| && inWindow[i] == svc;
        assert r[i] == x;
      }
    }
    r
  }

  /** The car filter `c.Services.Any(s => inWindow(s))`. */
  function HasUpcoming(car: Car, today: Day): (b: bool)
    ensures b <==> exists svc :: svc in car.services && InWindow(svc, today)
  {
    var b := Any(car.services, (svc: Service) => InWindow(svc, today));
    assert b ==> exists i :: 0 <= i < |car.services| && InWindow(car.services[i], today);
    assert (exists svc :: svc in car.services && InWindow(svc, today)) ==>
             exists i :: 0 <= i < |car.services| && InWindow(car.services[i], today);
    b
  }

  /** `cars.Where(HasUpcoming).SelectMany(UpcomingOf)`, before sorting. */
  function Flattened(cars: seq<Car>, today: Day): (r: seq<ScheduledService>)
    ensures forall x :: x in r ==> exists c :: c in cars && x in UpcomingOf(c, today)
    ensures forall c, x :: c in cars && x in UpcomingOf(c, today) ==> x in r
  {
    var has := (c: Car) => HasUpcoming(c, today);
    var upcoming := (c: Car) => UpcomingOf(c, today);
    var fetched := Where(cars, has);
    var r := SelectMany(fetched, upcoming);
    forall c, x | c in cars && x in UpcomingOf(c, today) ensures x in r {
      assert has(c);
      assert c in fetched;
      var i :| 0 <= i < |fetched| && fetched[i] == c;
      assert x in upcoming(fetched[i]);
    }
    forall x | x in r ensures exists c :: c in cars && x in UpcomingOf(c, today) {
      var i :| 0 <= i < |fetched| && x in upcoming(fetched[i]);
      assert fetched[i] in fetched;
    }
    r
  }

  /** `GetScheduledServicesNextTwoWeeksAsync()`: completed services are not filtered out. */
  function GetScheduledServicesNextTwoWeeks(cars: seq<Car>, today: Day): (r: seq<ScheduledService>)
    ensures SortedBy(r, ServiceStart)
    ensures forall x :: x in r ==> today <= x.serviceStartDate <= today + LookaheadDays
    ensures forall c, svc :: c in cars && svc in c.services && InWindow(svc, today) ==> Scheduled(c, svc) in r
    ensures forall x :: x in r ==> exists c, svc :: c in cars && svc in c.services && InWindow(svc, today) && x == Scheduled(c, svc)
  {
    var flat := Flattened(cars, today);
    var r := SortBy(flat, ServiceStart);
    forall x ensures x in r <==> x in flat {
      assert x in r <==> x in multiset(r);
      assert x in flat <==> x in multiset(flat);
    }
    forall c, svc | c in cars && svc in c.services && InWindow(svc, today) ensures Scheduled(c, svc) in r {
      assert Scheduled(c, svc) in UpcomingOf(c, today);
    }
    forall x | x in r
      ensures exists c, svc :: c in cars && svc in c.services && InWindow(svc, today) && x == Scheduled(c, svc)
    {
      var c :| c in cars && x in UpcomingOf(c, today);
      var svc :| svc in c.services && InWindow(svc, today) && x == Scheduled(c, svc);
    }
    r
  }
}
