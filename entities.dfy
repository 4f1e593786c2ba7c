/**
 * The stored records (`CarRental.DB.Entities`). Dates are whole day numbers,
 * `Guid`s are integers; navigation properties are replaced by the foreign keys
 * they follow, except that a car carries its own maintenance services.
 */
module Entities {

  type Guid = int
  type Day = int

  /** The duration a new service gets when none is set. */
  const DefaultServiceDays: int := 2

  /** A scheduled maintenance service of one car. */
  datatype Service = Service(id: Guid, carId: Guid, startDate: Day, durationInDays: int, isCompleted: bool)

  /** A car of the fleet with the services scheduled for it (`Include(x => x.Services)`). */
  datatype Car = Car(id: Guid, carType: string, model: string, services: seq<Service>)

  /** A booking of one car by one customer for the inclusive day range [startDate, endDate]. */
  datatype Rental = Rental(id: Guid, customerId: Guid, carId: Guid, startDate: Day, endDate: Day)

  /** A customer, identified externally by a personal identification number. */
  datatype Customer = Customer(id: Guid, personalIdNumber: int, fullName: string, address: string)
}
