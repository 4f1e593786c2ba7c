/**
 * The rental lifecycle of `CarRentalService`: `RegisterRentalAsync`,
 * `ModifyReservationAsync` and `CancelRentalAsync` over the rental table.
 * Each is specified by a function from the table before the call to the
 * outcome and the table after it; the class `CarRentalService` performs the
 * same steps on its `rentals` field. Calls are taken one at a time.
 */
module Reservations {
  import opened Outcomes
  import opened Queries
  import opened Entities
  import opened Conflicts
  import opened Availability

  /** Rental ids are the table's primary key. */
  predicate UniqueIds(rentals: seq<Rental>) {
    forall i, j :: 0 <= i < j < |rentals| ==> rentals[i].id != rentals[j].id
  }

  /** No two rentals of one car share a day. */
  predicate NoDoubleBooking(rentals: seq<Rental>) {
    forall i, j :: 0 <= i < j < |rentals| && rentals[i].carId == rentals[j].carId ==> Disjoint(rentals[i], rentals[j])
  }

  predicate ValidTable(rentals: seq<Rental>) {
    UniqueIds(rentals) && NoDoubleBooking(rentals)
  }

  /** `GetRentalAsync(rentalId)`: the first rental with that id, or RentalNotFound. */
  function GetRental(rentals: seq<Rental>, rentalId: Guid): (r: Result<Rental>)
    ensures r.Failure? <==> forall x :: x in rentals ==> x.id != rentalId
    ensures r.Failure? ==> r.error == RentalNotFound
    ensures r.Success? ==> exists i :: 0 <= i < |rentals| && rentals[i] == r.value && r.value.id == rentalId &&
                                       forall j :: 0 <= j < i ==> rentals[j].id != rentalId
  {
    match FirstOrDefault(rentals, (x: Rental) => x.id == rentalId)
    case None => Failure(RentalNotFound)
    case Some(x) => Success(x)
  }

  /** `Rentals.Update(rental)`: the row with the rental's primary key is rewritten. */
  function UpdateById(rentals: seq<Rental>, updated: Rental): (r: seq<Rental>)
    ensures |r| == |rentals|
    ensures forall i :: 0 <= i < |rentals| ==> r[i] == if rentals[i].id == updated.id then updated else rentals[i]
  {
    if rentals == [] then []
    else [if rentals[0].id == updated.id then updated else rentals[0]] + UpdateById(rentals[1..], updated)
  }

  /** `Rentals.Remove(rental)`: the row with that primary key is deleted. */
  function RemoveById(rentals: seq<Rental>, rentalId: Guid): (r: seq<Rental>)
    ensures |r| <= |rentals|
    ensures forall x :: x in r <==> x in rentals && x.id != rentalId
  {
    if rentals == [] then []
    else (if rentals[0].id == rentalId then [] else [rentals[0]]) + RemoveById(rentals[1..], rentalId)
  }

  /** With unique ids, deleting by key removes exactly the one row that has it. */
  lemma {:induction false} RemoveByIdRemovesOne(rentals: seq<Rental>, i: nat)
    requires UniqueIds(rentals) && i < |rentals|
    ensures RemoveById(rentals, rentals[i].id) == rentals[..i] + rentals[i + 1..]
  {
    var id := rentals[i].id;
    var tail := rentals[1..];
    if i == 0 {
      assert forall x :: x in tail ==> x.id != id by {
        forall x | x in tail ensures x.id != id {
          var k :| 0 <= k < |tail| && tail[k] == x;
          assert rentals[k + 1] == x;
        }
      }
      KeyAbsentRemovesNothing(tail, id);
    } else {
      assert UniqueIds(tail) by {
        forall a, b | 0 <= a < b < |tail| ensures tail[a].id != tail[b].id {
          assert tail[a] == rentals[a + 1] && tail[b] == rentals[b + 1];
        }
      }
      assert tail[i - 1] == rentals[i];
      RemoveByIdRemovesOne(tail, i - 1);
      assert rentals[0].id != id;
      assert tail[..i - 1] + tail[i..] == rentals[1..i] + rentals[i + 1..];
      assert rentals[..i] == [rentals[0]] + rentals[1..i];
    }
  }

  lemma {:induction false} KeyAbsentRemovesNothing(rentals: seq<Rental>, id: Guid)
    requires forall x :: x in rentals ==> x.id != id
    ensures RemoveById(rentals, id) == rentals
  {
    if rentals != [] {
      assert rentals[0] in rentals;
      assert forall x :: x in rentals[1..] ==> x in rentals;
      KeyAbsentRemovesNothing(rentals[1..], id);
      assert rentals == [rentals[0]] + rentals[1..];
    }
  }

  /** The date validation of Register and Modify: not in the past and not reversed. */
  function ValidDates(s: Day, e: Day, today: Day): (ok: bool)
    ensures ok <==> today <= s <= e
    ensures ok ==> today <= e
  {
    !(s < today || e < s)
  }

  /** The outcome of a call and the rental table after it. */
  datatype Step<T> = Step(result: Result<T>, rentals: seq<Rental>)

  /** `RegisterRentalAsync(customerId, carModel, carType, startDate, endDate)` with a fresh id. */
  function RegisterStep(cars: seq<Car>, rentals: seq<Rental>, customerId: Guid, carModel: string, carType: string,
                        s: Day, e: Day, today: Day, newId: Guid): (st: Step<Rental>)
    ensures st.result.Failure? ==> st.result.error in {InvalidRentDates, CarNotAvailable}
    ensures ValidDates(s, e, today) && (exists c :: c in cars && Offers(c, rentals, carType, carModel, s, e, None)) ==>
              st.result.Success?
    ensures st.result == Failure(InvalidRentDates) <==> !ValidDates(s, e, today)
    ensures st.result == Failure(CarNotAvailable) <==>
              ValidDates(s, e, today) && forall c :: c in cars ==> !Offers(c, rentals, carType, carModel, s, e, None)
    ensures st.result.Failure? ==> st.rentals == rentals
    ensures st.result.Success? ==>
              var r := st.result.value;
              && st.rentals == rentals + [r]
              && r.id == newId && r.customerId == customerId && r.startDate == s && r.endDate == e
              && exists c :: c in cars && c.id == r.carId && Offers(c, rentals, carType, carModel, s, e, None)
  {
    if s < today || e < s then Step(Failure(InvalidRentDates), rentals)
    else
      match GetAvailableCar(cars, rentals, carType, carModel, s, e, None)
      case None => Step(Failure(CarNotAvailable), rentals)
      case Some(car) =>
        var r := Rental(newId, customerId, car.id, s, e);
        Step(Success(r), rentals + [r])
  }

  /** The rental Modify would store: the current one with each omitted field kept. */
  function Modified(cur: Rental, newStart: Option<Day>, newEnd: Option<Day>, newCarId: Option<Guid>): (r: Rental)
    ensures r.id == cur.id && r.customerId == cur.customerId
    ensures newStart.None? ==> r.startDate == cur.startDate
    ensures newEnd.None? ==> r.endDate == cur.endDate
    ensures newCarId.None? ==> r.carId == cur.carId
  {
    cur.(startDate := newStart.GetOr(cur.startDate), endDate := newEnd.GetOr(cur.endDate), carId := newCarId.GetOr(cur.carId))
  }

  /** `ModifyReservationAsync(rentalId, newStartDate, newEndDate, newCarId)` */
  function ModifyStep(cars: seq<Car>, rentals: seq<Rental>, rentalId: Guid, newStart: Option<Day>, newEnd: Option<Day>,
                      newCarId: Option<Guid>, today: Day): (st: Step<Rental>)
    ensures st.result.Failure? ==> st.result.error in {RentalNotFound, InvalidRentDates, CarNotAvailable}
    ensures st.result == Failure(RentalNotFound) <==> forall x :: x in rentals ==> x.id != rentalId
    ensures st.result.Failure? ==> st.rentals == rentals
    ensures GetRental(rentals, rentalId).Success? ==>
              var cur := GetRental(rentals, rentalId).value;
              var m := Modified(cur, newStart, newEnd, newCarId);
              && (st.result == Failure(InvalidRentDates) <==> !ValidDates(m.startDate, m.endDate, today))
              && (ValidDates(m.startDate, m.endDate, today) && m == cur ==> st == Step(Success(cur), rentals))
              && (st.result == Failure(CarNotAvailable) <==>
                    ValidDates(m.startDate, m.endDate, today) && m != cur &&
                    !IsAvailable(cars, rentals, m.carId, m.startDate, m.endDate, Some(cur.id)))
              && ((ValidDates(m.startDate, m.endDate, today) &&
                   IsAvailable(cars, rentals, m.carId, m.startDate, m.endDate, Some(cur.id))) ==> st.result == Success(m))
              && (st.result.Success? ==> st.result.value == m)
              && (st.result.Success? && m != cur ==>
                    && IsAvailable(cars, rentals, m.carId, m.startDate, m.endDate, Some(cur.id))
                    && |st.rentals| == |rentals|
                    && forall i :: 0 <= i < |rentals| ==>
                         st.rentals[i] == if rentals[i].id == rentalId then m else rentals[i])
  {
    match GetRental(rentals, rentalId)
    case Failure(err) => Step(Failure(err), rentals)
    case Success(cur) =>
      var m := Modified(cur, newStart, newEnd, newCarId);
      if m.startDate < today || m.endDate < m.startDate then Step(Failure(InvalidRentDates), rentals)
      else if m.carId == cur.carId && m.startDate == cur.startDate && m.endDate == cur.endDate then
        Step(Success(cur), rentals)
      else if !IsAvailable(cars, rentals, m.carId, m.startDate, m.endDate, Some(cur.id)) then
        Step(Failure(CarNotAvailable), rentals)
      else Step(Success(m), UpdateById(rentals, m))
  }

  /** `CancelRentalAsync(rentalId)`: only a rental starting after today can be cancelled. */
  function CancelStep(rentals: seq<Rental>, rentalId: Guid, today: Day): (st: Step<()>)
    ensures st.result.Failure? ==> st.result.error in {RentalNotFound, RentalCancellation}
    ensures (exists x :: x in rentals && x.id == rentalId) && GetRental(rentals, rentalId).value.startDate > today ==>
              st.result.Success?
    ensures st.result == Failure(RentalNotFound) <==> forall x :: x in rentals ==> x.id != rentalId
    ensures st.result == Failure(RentalCancellation) <==>
              GetRental(rentals, rentalId).Success? && GetRental(rentals, rentalId).value.startDate <= today
    ensures st.result.Failure? ==> st.rentals == rentals
    ensures st.result.Success? ==>
              && (exists x :: x in rentals && x.id == rentalId && x.startDate > today)
              && forall x :: x in st.rentals <==> x in rentals && x.id != rentalId
  {
    match GetRental(rentals, rentalId)
    case Failure(err) => Step(Failure(err), rentals)
    case Success(r) =>
      if r.startDate < today + 1 then Step(Failure(RentalCancellation), rentals)
      else Step(Success(()), RemoveById(rentals, r.id))
  }

  /** A successful cancellation of a table with unique ids deletes exactly one row. */
  lemma CancelRemovesExactlyOne(rentals: seq<Rental>, rentalId: Guid, today: Day)
    requires UniqueIds(rentals)
    requires CancelStep(rentals, rentalId, today).result.Success?
    ensures exists i :: 0 <= i < |rentals| && rentals[i].id == rentalId &&
                        CancelStep(rentals, rentalId, today).rentals == rentals[..i] + rentals[i + 1..]
  {
    var i :| 0 <= i < |rentals| && rentals[i] == GetRental(rentals, rentalId).value;
    RemoveByIdRemovesOne(rentals, i);
  }

  /** Registration keeps the stored table valid, given a fresh id. */
  lemma RegisterKeepsTableValid(cars: seq<Car>, rentals: seq<Rental>, customerId: Guid, carModel: string, carType: string,
                                s: Day, e: Day, today: Day, newId: Guid)
    requires ValidTable(rentals)
    requires forall x :: x in rentals ==> x.id != newId
    ensures ValidTable(RegisterStep(cars, rentals, customerId, carModel, carType, s, e, today, newId).rentals)
  {
    var st := RegisterStep(cars, rentals, customerId, carModel, carType, s, e, today, newId);
    if st.result.Success? {
      var r := st.result.value;
      var c :| c in cars && c.id == r.carId && Offers(c, rentals, carType, carModel, s, e, None);
      var t := st.rentals;
      forall i, j | 0 <= i < j < |t| ensures t[i].id != t[j].id && (t[i].carId == t[j].carId ==> Disjoint(t[i], t[j])) {
        if j == |rentals| {
          assert t[i] == rentals[i] && t[j] == r;
          assert rentals[i] in rentals;
          if t[i].carId == t[j].carId {
            AdmittedIsDisjoint(rentals[i], r);
          }
        } else {
          assert t[i] == rentals[i] && t[j] == rentals[j];
        }
      }
    }
  }

  /** Modification keeps the stored table valid: the changed rental is admitted against every other
      rental of its (possibly new) car, and its id does not change. */
  lemma ModifyKeepsTableValid(cars: seq<Car>, rentals: seq<Rental>, rentalId: Guid, newStart: Option<Day>,
                              newEnd: Option<Day>, newCarId: Option<Guid>, today: Day)
    requires ValidTable(rentals)
    ensures ValidTable(ModifyStep(cars, rentals, rentalId, newStart, newEnd, newCarId, today).rentals)
  {
    var st := ModifyStep(cars, rentals, rentalId, newStart, newEnd, newCarId, today);
    if st.result.Success? && st.rentals != rentals {
      var cur := GetRental(rentals, rentalId).value;
      var m := Modified(cur, newStart, newEnd, newCarId);
      assert m != cur;
      var c :| c in cars && c.id == m.carId && IsFree(c, rentals, Some(cur.id), m.startDate, m.endDate);
      var t := st.rentals;
      forall i, j | 0 <= i < j < |t| ensures t[i].id != t[j].id && (t[i].carId == t[j].carId ==> Disjoint(t[i], t[j])) {
        if rentals[i].id == rentalId && rentals[j].id == rentalId {
          assert false;
        } else if rentals[i].id == rentalId {
          assert t[i] == m && t[j] == rentals[j] && rentals[j] in rentals;
          if t[i].carId == t[j].carId {
            AdmittedIsDisjoint(rentals[j], m);
          }
        } else if rentals[j].id == rentalId {
          assert t[j] == m && t[i] == rentals[i] && rentals[i] in rentals;
          if t[i].carId == t[j].carId {
            AdmittedIsDisjoint(rentals[i], m);
          }
        }
      }
    }
  }

  /** Deleting one row keeps a table valid. */
  lemma DeletingKeepsTableValid(rentals: seq<Rental>, i: nat)
    requires ValidTable(rentals) && i < |rentals|
    ensures ValidTable(rentals[..i] + rentals[i + 1..])
  {
    var t := rentals[..i] + rentals[i + 1..];
    forall a, b | 0 <= a < b < |t| ensures t[a].id != t[b].id && (t[a].carId == t[b].carId ==> Disjoint(t[a], t[b])) {
      var a' := if a < i then a else a + 1;
      var b' := if b < i then b else b + 1;
      assert t[a] == rentals[a'] && t[b] == rentals[b'] && a' < b';
    }
  }

  /** Cancellation keeps the stored table valid. */
  lemma CancelKeepsTableValid(rentals: seq<Rental>, rentalId: Guid, today: Day)
    requires ValidTable(rentals)
    ensures ValidTable(CancelStep(rentals, rentalId, today).rentals)
  {
    var st := CancelStep(rentals, rentalId, today);
    if st.result.Success? {
      CancelRemovesExactlyOne(rentals, rentalId, today);
      var i :| 0 <= i < |rentals| && rentals[i].id == rentalId && st.rentals == rentals[..i] + rentals[i + 1..];
      DeletingKeepsTableValid(rentals, i);
    }
  }

  /** A rental may start today but not yesterday. */
  lemma RegisterFromToday(cars: seq<Car>, rentals: seq<Rental>, customerId: Guid, carModel: string, carType: string,
                          e: Day, today: Day, newId: Guid)
    requires e >= today
    ensures RegisterStep(cars, rentals, customerId, carModel, carType, today, e, today, newId).result != Failure(InvalidRentDates)
    ensures RegisterStep(cars, rentals, customerId, carModel, carType, today - 1, e, today, newId).result == Failure(InvalidRentDates)
  {
  }

  /** A rental starting today can no longer be cancelled; one starting tomorrow can. */
  lemma CancelFromTomorrow(rentals: seq<Rental>, r: Rental, today: Day)
    requires r in rentals && forall x :: x in rentals && x.id == r.id ==> x == r
    ensures r.startDate == today ==> CancelStep(rentals, r.id, today).result == Failure(RentalCancellation)
    ensures r.startDate == today + 1 ==> CancelStep(rentals, r.id, today).result.Success?
  {
    var g := GetRental(rentals, r.id);
    assert g.Success? && g.value == r;
  }

  /** Modifying with nothing changed (all omitted, valid stored dates) returns the stored rental
      and leaves the table as it was, without consulting availability. */
  lemma NothingToModify(cars: seq<Car>, rentals: seq<Rental>, r: Rental, today: Day)
    requires r in rentals && forall x :: x in rentals && x.id == r.id ==> x == r
    requires ValidDates(r.startDate, r.endDate, today)
    ensures ModifyStep(cars, rentals, r.id, None, None, None, today) == Step(Success(r), rentals)
  {
    var g := GetRental(rentals, r.id);
    assert g.Success? && g.value == r;
  }

  /** Two sequential bookings for the last car of a type and model over overlapping ranges:
      after the first succeeds, the second is refused. */
  lemma SecondBookingOfLastCarIsRefused(cars: seq<Car>, rentals: seq<Rental>, carModel: string, carType: string,
                                        today: Day, c1: Guid, s1: Day, e1: Day, id1: Guid,
                                        c2: Guid, s2: Day, e2: Day, id2: Guid)
    requires RegisterStep(cars, rentals, c1, carModel, carType, s1, e1, today, id1).result.Success?
    requires forall c :: c in cars && c.carType == carType && c.model == carModel ==>
               c.id == RegisterStep(cars, rentals, c1, carModel, carType, s1, e1, today, id1).result.value.carId
    requires ValidDates(s2, e2, today) && Overlaps(s2, e2, s1, e1)
    ensures var after := RegisterStep(cars, rentals, c1, carModel, carType, s1, e1, today, id1).rentals;
            RegisterStep(cars, after, c2, carModel, carType, s2, e2, today, id2).result == Failure(CarNotAvailable)
  {
    var first := RegisterStep(cars, rentals, c1, carModel, carType, s1, e1, today, id1);
    var r1 := first.result.value;
    var after := first.rentals;
    assert r1 in after;
    forall c | c in cars ensures !Offers(c, after, carType, carModel, s2, e2, None) {
      if c.carType == carType && c.model == carModel {
        assert RentalBlocks(r1, s2, e2);
      }
    }
  }

  /** On a one-car fleet, booking [5, 7] and then [2, 4] stores both rentals, while booking
      [2, 4] and then [5, 7] refuses the second: the turnaround day is only added after a stored rental. */
  lemma RegistrationOrderMatters(c: Car, today: Day, customerId: Guid, id1: Guid, id2: Guid)
    requires c.services == [] && today <= 2
    ensures var first := RegisterStep([c], [], customerId, c.model, c.carType, 5, 7, today, id1);
            var second := RegisterStep([c], first.rentals, customerId, c.model, c.carType, 2, 4, today, id2);
            second.result.Success? && |second.rentals| == 2
    ensures var first := RegisterStep([c], [], customerId, c.model, c.carType, 2, 4, today, id1);
            var second := RegisterStep([c], first.rentals, customerId, c.model, c.carType, 5, 7, today, id2);
            second.result == Failure(CarNotAvailable) && |second.rentals| == 1
  {
    assert Offers(c, [], c.carType, c.model, 5, 7, None);
    var late := RegisterStep([c], [], customerId, c.model, c.carType, 5, 7, today, id1);
    assert late.rentals == [Rental(id1, customerId, c.id, 5, 7)];
    assert Offers(c, late.rentals, c.carType, c.model, 2, 4, None);

    assert Offers(c, [], c.carType, c.model, 2, 4, None);
    var early := RegisterStep([c], [], customerId, c.model, c.carType, 2, 4, today, id1);
    assert early.rentals == [Rental(id1, customerId, c.id, 2, 4)];
    assert RentalBlocks(early.rentals[0], 5, 7);
    assert !Offers(c, early.rentals, c.carType, c.model, 5, 7, None);
  }

  /** The rental service over a fleet and the rental table it keeps. */
  class CarRentalService {
    const cars: seq<Car>
    var rentals: seq<Rental>

    constructor(cars: seq<Car>, rentals: seq<Rental>)
      ensures this.cars == cars && this.rentals == rentals
    {
      this.cars := cars;
      this.rentals := rentals;
    }

    /** `GetRentalsAsync`: every rental, in table order. */
    method GetRentals() returns (all: seq<Rental>)
      ensures all == rentals
    {
      all := rentals;
    }

    /** `RegisterRentalAsync`; `newId` stands for `Guid.NewGuid()` and `today` for the UTC date. */
    method RegisterRental(customerId: Guid, carModel: string, carType: string, s: Day, e: Day, today: Day, newId: Guid)
      returns (result: Result<Rental>)
      modifies this
      ensures Step(result, rentals) == RegisterStep(cars, old(rentals), customerId, carModel, carType, s, e, today, newId)
      ensures old(ValidTable(rentals)) && (forall x :: x in old(rentals) ==> x.id != newId) ==> ValidTable(rentals)
    {
      if s < today || e < s {
        return Failure(InvalidRentDates);
      }
      var car := GetAvailableCar(cars, rentals, carType, carModel, s, e, None);
      if car.None? {
        return Failure(CarNotAvailable);
      }
      var rental := Rental(newId, customerId, car.value.id, s, e);
      if ValidTable(rentals) && forall x :: x in rentals ==> x.id != newId {
        RegisterKeepsTableValid(cars, rentals, customerId, carModel, carType, s, e, today, newId);
      }
      rentals := rentals + [rental];
      result := Success(rental);
    }

    /** `ModifyReservationAsync`: an omitted argument keeps the stored value. */
    method ModifyReservation(rentalId: Guid, newStart: Option<Day>, newEnd: Option<Day>, newCarId: Option<Guid>, today: Day)
      returns (result: Result<Rental>)
      modifies this
      ensures Step(result, rentals) == ModifyStep(cars, old(rentals), rentalId, newStart, newEnd, newCarId, today)
      ensures old(ValidTable(rentals)) ==> ValidTable(rentals)
    {
      if ValidTable(rentals) {
        ModifyKeepsTableValid(cars, rentals, rentalId, newStart, newEnd, newCarId, today);
      }
      var found := GetRental(rentals, rentalId);
      if found.Failure? {
        return Failure(found.error);
      }
      var rental := found.value;
      var carId := newCarId.GetOr(rental.carId);
      var startDate := newStart.GetOr(rental.startDate);
      var endDate := newEnd.GetOr(rental.endDate);
      if startDate < today || endDate < startDate {
        return Failure(InvalidRentDates);
      }
      if carId == rental.carId && startDate == rental.startDate && endDate == rental.endDate {
        return Success(rental);
      }
      if !IsAvailable(cars, rentals, carId, startDate, endDate, Some(rental.id)) {
        return Failure(CarNotAvailable);
      }
      rental := rental.(startDate := startDate, endDate := endDate, carId := carId);
      rentals := UpdateById(rentals, rental);
      result := Success(rental);
    }

    /** `CancelRentalAsync`; the rental is deleted outright. */
    method CancelRental(rentalId: Guid, today: Day) returns (result: Result<()>)
      modifies this
      ensures Step(result, rentals) == CancelStep(old(rentals), rentalId, today)
      ensures old(ValidTable(rentals)) ==> ValidTable(rentals)
    {
      if ValidTable(rentals) {
        CancelKeepsTableValid(rentals, rentalId, today);
      }
      var found := GetRental(rentals, rentalId);
      if found.Failure? {
        return Failure(found.error);
      }
      if found.value.startDate < today + 1 {
        return Failure(RentalCancellation);
      }
      rentals := RemoveById(rentals, found.value.id);
      result := Success(());
    }
  }
}
