/** The car DTO of `CarRental.Domain/Models/Cars/CarDto.cs`, which repeats the service-window check. */
module CarDtos {
  import opened Outcomes
  import opened Queries
  import opened Entities
  import Cars
  import Conflicts

  /** `ServiceDto`: a field-for-field copy of a service. */
  datatype ServiceDto = ServiceDto(id: Guid, carId: Guid, startDate: Day, durationInDays: int, isCompleted: bool)

  /** `CarDto`; either list may be null. Rentals are carried as the stored records. */
  datatype CarDto = CarDto(id: Guid, carType: string, model: string,
                           services: Option<seq<ServiceDto>>, rentals: Option<seq<Rental>>)

  /** `CarDto.IsUnavailableForService(startDate, endDate)` */
  function IsUnavailableForService(dto: CarDto, s: Day, e: Day): (b: bool)
    ensures b <==> dto.services.Some? &&
                   exists i :: 0 <= i < |dto.services.value| &&
                     s <= dto.services.value[i].startDate + dto.services.value[i].durationInDays - 1 &&
                     e >= dto.services.value[i].startDate
  {
    dto.services.Some? &&
    Any(dto.services.value, (svc: ServiceDto) => s <= svc.startDate + svc.durationInDays - 1 && e >= svc.startDate)
  }

  /** `CarMapper.MapToDto`: copies id, model and type and leaves both lists null. */
  function MapToDto(car: Car): (dto: CarDto)
    ensures dto.id == car.id && dto.model == car.model && dto.carType == car.carType
    ensures dto.services.None? && dto.rentals.None?
  {
    CarDto(car.id, car.carType, car.model, None, None)
  }

  /** An empty service list never blocks. */
  lemma EmptyServicesNeverBlock(dto: CarDto, s: Day, e: Day)
    requires dto.services == Some([]) || dto.services.None?
    ensures !IsUnavailableForService(dto, s, e)
  {
  }

  /** The answer does not depend on the Rentals list. */
  lemma IndependentOfRentals(dto: CarDto, rentals: Option<seq<Rental>>, s: Day, e: Day)
    ensures IsUnavailableForService(dto.(rentals := rentals), s, e) == IsUnavailableForService(dto, s, e)
  {
  }

  /** A DTO produced by `CarMapper.MapToDto` carries no services, so it always reports the car as free. */
  lemma MappedDtoIsNeverUnavailable(car: Car, s: Day, e: Day)
    ensures !IsUnavailableForService(MapToDto(car), s, e)
  {
  }

  /** The service lists of a DTO and a domain car describe the same windows. */
  predicate SameWindows(dtos: Option<seq<ServiceDto>>, svcs: Option<seq<Service>>) {
    match (dtos, svcs)
    case (None, None) => true
    case (Some(ds), Some(ss)) =>
      |ds| == |ss| &&
      forall i :: 0 <= i < |ds| ==> ds[i].startDate == ss[i].startDate && ds[i].durationInDays == ss[i].durationInDays
    case _ => false
  }

  /** The DTO's check and `Car.IsUnavailableForService` agree on the same service windows. */
  lemma {:induction false} AgreesWithDomainCar(dto: CarDto, car: Cars.Car, s: Day, e: Day)
    requires SameWindows(dto.services, car.services)
    ensures IsUnavailableForService(dto, s, e) == Cars.IsUnavailableForService(car, s, e)
  {
    if dto.services.Some? {
      var ds, ss := dto.services.value, car.services.value;
      if IsUnavailableForService(dto, s, e) {
        var i :| 0 <= i < |ds| && s <= ds[i].startDate + ds[i].durationInDays - 1 && e >= ds[i].startDate;
        assert Conflicts.ServiceBlocks(ss[i], s, e);
      }
      if Cars.IsUnavailableForService(car, s, e) {
        var i :| 0 <= i < |ss| && Conflicts.ServiceBlocks(ss[i], s, e);
        assert s <= ds[i].startDate + ds[i].durationInDays - 1 && e >= ds[i].startDate;
      }
    }
  }
}
