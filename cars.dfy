/** The domain car of `CarRental.Domain/Models/Cars/Car.cs` and its service-window check. */
module Cars {
  import opened Outcomes
  import opened Queries
  import opened Entities
  import opened Conflicts

  /** A domain car. `carType` is the name of the `CarType` value; either list may be null. */
  datatype Car = Car(id: Guid, carType: string, model: string,
                     services: Option<seq<Service>>, rentals: Option<seq<Rental>>)

  /** `Car.IsUnavailableForService(startDate, endDate)`: the list is not null and some service
      window [Start, Start + Duration - 1] meets [s, e]. */
  function IsUnavailableForService(car: Car, s: Day, e: Day): (b: bool)
    ensures b <==> car.services.Some? &&
                   exists i :: 0 <= i < |car.services.value| && ServiceBlocks(car.services.value[i], s, e)
  {
    car.services.Some? && Any(car.services.value, (svc: Service) => ServiceBlocks(svc, s, e))
  }

  /** A car whose service list is null is never unavailable for service. */
  lemma NullServicesNeverBlock(car: Car, s: Day, e: Day)
    requires car.services.None?
    ensures !IsUnavailableForService(car, s, e)
  {
  }

  /** Appending a service can only turn the answer from false to true: the car becomes
      unavailable exactly when it already was or the new service blocks the range. */
  lemma {:induction false} AddingServiceIsMonotone(car: Car, svc: Service, s: Day, e: Day)
    requires car.services.Some?
    ensures IsUnavailableForService(car.(services := Some(car.services.value + [svc])), s, e) <==>
            IsUnavailableForService(car, s, e) || ServiceBlocks(svc, s, e)
  {
    var old_ := car.services.value;
    var new_ := old_ + [svc];
    assert forall i :: 0 <= i < |old_| ==> new_[i] == old_[i];
    assert new_[|old_|] == svc;
  }

  /** A two-day service starting on day d makes the car unavailable for every range
      touching d or d + 1, and for no range ending on d - 1 or starting on d + 2. */
  lemma {:induction false} TwoDayServiceBlocksItsDays(car: Car, svc: Service, s: Day, e: Day)
    requires car.services == Some([svc]) && svc.durationInDays == DefaultServiceDays
    ensures s <= e && (s <= svc.startDate <= e || s <= svc.startDate + 1 <= e) ==> IsUnavailableForService(car, s, e)
    ensures e == svc.startDate - 1 || s == svc.startDate + 2 ==> !IsUnavailableForService(car, s, e)
  {
    assert car.services.value[0] == svc;
  }
}
