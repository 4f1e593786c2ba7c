# Car rental reservation engine, in Dafny

This project models the domain core of the car rental API `pwc-carrental-api`:

- **The reservation engine of `CarRentalService`.** It checks availability over a fleet of cars that carry maintenance services. It registers, modifies and cancels rentals in a rental table.
- **The two reports of `RentalReportingService`.** These are the most rented car type over a date range, and the services scheduled for the next two weeks.
- **The distinct type and model lists of `CarService`.**
- **The customer table of `CustomerService`.**
- **The get-or-set protocol of `MemoryCacheService`.**

Conventions:

- Dates are whole day numbers (`Day = int`). The current date (`today`) and the current instant (`now`, in seconds) are parameters.
- A `Guid` is an integer. A freshly generated id is passed in as `newId`.
- The database tables are sequences of records. `FindAsync(predicate)` is a filter over them. `SaveChangesAsync` is the assignment of the new table.
- Every exception a service throws is a `Failure(error)` of `Outcomes.Result`, where the error is one of:
  - `InvalidRentDates`, `CarNotAvailable`, `RentalNotFound` and `RentalCancellation` stand for the domain exceptions of the same names;
  - `NoElements` stands for the `InvalidOperationException` that `First()` throws on an empty sequence.

How the model is organised:

- **Conflict predicates.** Two predicates decide whether a requested inclusive range `[s, e]` is blocked, both in `conflicts.dfy`:
  - `RentalBlocks`: `s <= End + 1 && e >= Start`. The car stays busy the day after a rental ends.
  - `ServiceBlocks`: `s <= Start + Duration - 1 && e >= Start`.
- **Table invariant.** `Reservations.ValidTable` requires that rental ids are unique and that no two rentals of one car share a day. The rental predicate is not symmetric (`Conflicts.RentalBlocksIsNotSymmetric`). Even so, a rental admitted against a stored one never shares a day with it (`Conflicts.AdmittedIsDisjoint`).
- **The three state-changing operations** (Register, Modify, Cancel) are each defined twice:
  - as a function from the table before the call to the outcome and the table after it (`RegisterStep`, `ModifyStep`, `CancelStep`);
  - as a method of the class `CarRentalService`, which updates its `rentals` field step by step as the source does. The method is proved to agree with the function and to keep `ValidTable`.
- **The LINQ operators** the services are built from live in `queries.dfy`. Each is stated against a declarative description of its result:
  - `Any`, `Where`, `FirstOrDefault`, `Select`, `SelectMany` and `Distinct`;
  - `GroupBy(..).Count()` as `GroupCount`;
  - the stable `OrderBy` as `SortBy`.

## Model

| member | source | states |
|---|---|---|
| Conflicts.RentalTurnaround | CarRental.Domain/Services/CarRentalService.cs:78-79 | a request starting the day after a rental ends is still blocked, one starting two days after is free, and one ending the day before the rental starts is free |
| Conflicts.RentalBlocks | CarRental.Domain/Services/CarRentalService.cs:57 | a stored rental blocks [s, e] exactly when [s, e] overlaps the rental's range extended by one day at its end (the same clause is used at :78-79 and :96-97) |
| Conflicts.ServiceBlocks | CarRental.Domain/Services/CarRentalService.cs:58 | a service blocks [s, e] exactly when [s, e] overlaps [Start, Start + Duration - 1] (the same clause is used at :80 and :98) |
| Conflicts.RentalBlocksIsNotSymmetric | CarRental.Domain/Services/CarRentalService.cs:96-97 | a stored [5, 7] admits a request for [2, 4] while a stored [2, 4] refuses [5, 7] |
| Conflicts.AdmittedIsDisjoint | CarRental.Domain/Services/CarRentalService.cs:94-97 | a rental admitted against a stored one shares no day with it, in either order |
| Conflicts.TwoDayServiceWindow | CarRental.Domain/Services/CarRentalService.cs:58 | a two-day service starting on d blocks every range touching d or d + 1, and neither a range ending on d - 1 nor one starting on d + 2 |
| Cars.IsUnavailableForService | CarRental.Domain/Models/Cars/Car.cs:12-17 | true exactly when the service list is not null and some service window meets [s, e] |
| Cars.NullServicesNeverBlock | CarRental.Domain/Models/Cars/Car.cs:14 | a car whose service list is null is never unavailable for service |
| Cars.AddingServiceIsMonotone | CarRental.Domain/Models/Cars/Car.cs:14-16 | after appending a service the answer is the old answer or whether the new service blocks; it can only turn from false to true |
| Cars.TwoDayServiceBlocksItsDays | CarRental.Domain/Models/Cars/Car.cs:15-16 | with one default two-day service starting on d, ranges touching d or d + 1 are refused, and ranges ending on d - 1 or starting on d + 2 are not |
| CarDtos.IsUnavailableForService | CarRental.Domain/Models/Cars/CarDto.cs:14-19 | true exactly when the service list is not null and some ServiceDto window [Start, Start + Duration - 1] meets [s, e] |
| CarDtos.EmptyServicesNeverBlock | CarRental.Domain/Models/Cars/CarDto.cs:16 | a null or empty service list never blocks |
| CarDtos.IndependentOfRentals | CarRental.Domain/Models/Cars/CarDto.cs:14-19 | the answer does not depend on the Rentals list |
| CarDtos.AgreesWithDomainCar | CarRental.Domain/Models/Cars/CarDto.cs:14-19 | on the same service windows the DTO's check and Car.IsUnavailableForService give the same answer |
| CarDtos.MapToDto | CarRental.Domain/Mappers/CarMapper.cs:9-17 | the DTO copies id, type and model and leaves both lists null |
| CarDtos.MappedDtoIsNeverUnavailable | CarRental.Domain/Mappers/CarMapper.cs:11-16 | a DTO produced by the mapper carries no services, so its check always reports the car as free |
| Text.Lower | CarRental.Domain/Services/CarRentalService.cs:55 | ToLower keeps the length and lowers each character |
| Text.LowerIsIdempotent | CarRental.Domain/Services/CarRentalService.cs:55 | lowering an already lowered string changes nothing |
| Text.ContainsItself | CarRental.Domain/Services/CarRentalService.cs:56 | every string contains itself as a substring; the exact-name case of the model filter rests on it (Availability.ModelFilter) |
| Availability.RentalConflict | CarRental.Domain/Services/CarRentalService.cs:76-79 | true exactly when some rental of the car, other than the excluded id, blocks [s, e] |
| Availability.ServiceConflict | CarRental.Domain/Services/CarRentalService.cs:80 | true exactly when some service of the car blocks [s, e] |
| Availability.IsFree | CarRental.Domain/Services/CarRentalService.cs:74-80 | the car is free exactly when no non-excluded rental of it and none of its services blocks [s, e] |
| Availability.IsAvailable | CarRental.Domain/Services/CarRentalService.cs:71-86 | true exactly when a car with that id exists and is free, ignoring the rental being re-checked |
| Availability.UnknownCarIsUnavailable | CarRental.Domain/Services/CarRentalService.cs:73-85 | an id no car carries is never available |
| Availability.ServiceClauseAgreesWithDomainCar | CarRental.Domain/Services/CarRentalService.cs:58 | the query's service clause equals Car.IsUnavailableForService on the car's (non-null) list |
| Availability.GetAvailableCar | CarRental.Domain/Services/CarRentalService.cs:88-107 | null exactly when no car of exactly that type and model is free; otherwise the first such car in fleet order |
| Availability.TypeFilter | CarRental.Domain/Services/CarRentalService.cs:55 | no type accepts every car; a given type is accepted exactly when it equals the car's type ignoring case, so the exact type is accepted and an accepted type has the car type's length |
| Availability.ModelFilter | CarRental.Domain/Services/CarRentalService.cs:56 | a null or empty model accepts every car; a non-empty model is accepted exactly when its lower-cased form is a substring of the car's lower-cased model; so the exact model name is accepted, and an accepted model is no longer than the car's model |
| Availability.ModelFilterIgnoresCase | CarRental.Domain/Services/CarRentalService.cs:56 | a requested model and its lower-cased form are accepted for the same cars |
| Availability.BookableCars | CarRental.Domain/Services/CarRentalService.cs:53-61 | the fetched cars are exactly those passing the case-insensitive type filter, the model substring filter and the freedom check, each with its multiplicity in the fleet |
| Availability.ModelKeys | CarRental.Domain/Services/CarRentalService.cs:63 | each car's grouping key is its (type, model) pair, position by position |
| Availability.SumCountsOfGroups | CarRental.Domain/Services/CarRentalService.cs:63-68 | the counts of the projected groups add up to the number of grouped elements |
| Availability.AvailabilityFacts | CarRental.Domain/Services/CarRentalService.cs:63-68 | the grouped result has distinct (type, model) keys, each counting its cars, covering every bookable car, with counts summing to their number |
| Availability.CheckAvailability | CarRental.Domain/Services/CarRentalService.cs:47-69 | InvalidRentDates exactly when end < start or start < today; otherwise one entry per distinct (type, model) of the bookable cars, each counting them, covering all of them, with counts summing to their number |
| Queries.GroupCount | CarRental.Domain/Services/CarRentalService.cs:63 | GroupBy(..).Count(): distinct keys, positive counts, each key's count is its multiplicity, the keys are exactly the elements, the counts sum to the length |
| Reservations.GetRental | CarRental.Domain/Services/CarRentalService.cs:185-191 | RentalNotFound exactly when no rental has the id; otherwise the first rental with it |
| Reservations.UpdateById | CarRental.Domain/Services/CarRentalService.cs:139 | the update rewrites every row with the updated rental's key and keeps every other row |
| Reservations.ValidDates | CarRental.Domain/Services/CarRentalService.cs:157 | dates are valid exactly when today <= start <= end, so a valid range never ends before today (the same check is made at :118) |
| Reservations.RemoveById | CarRental.Domain/Services/CarRentalService.cs:36 | after the delete the table holds exactly the rows without that key |
| Reservations.RemoveByIdRemovesOne | CarRental.Domain/Services/CarRentalService.cs:36 | with unique ids, deleting by key removes exactly the one row that has it |
| Reservations.KeyAbsentRemovesNothing | CarRental.Domain/Services/CarRentalService.cs:36 | deleting a key no row has leaves the table unchanged |
| Reservations.RegisterStep | CarRental.Domain/Services/CarRentalService.cs:153-181 | the only failures are InvalidRentDates and CarNotAvailable; InvalidRentDates exactly when start < today or end < start; CarNotAvailable exactly when the dates are valid and no car of that type and model is free; valid dates with a free matching car give Success; the table is unchanged on failure; on success exactly one rental is appended, with the fresh id, the customer, the dates and a free matching car |
| Reservations.Modified | CarRental.Domain/Services/CarRentalService.cs:114-116 | every omitted argument keeps the current value; id and customer never change |
| Reservations.ModifyStep | CarRental.Domain/Services/CarRentalService.cs:110-143 | the only failures are RentalNotFound, InvalidRentDates and CarNotAvailable; RentalNotFound exactly when the id is unknown; InvalidRentDates exactly when the effective dates are invalid; valid dates with the target car free (ignoring this rental) give Success with the modified rental; with nothing changed the current rental is returned and the table is untouched; otherwise CarNotAvailable exactly when the target car is not free ignoring this rental; on success only that rental is rewritten |
| Reservations.CancelStep | CarRental.Domain/Services/CarRentalService.cs:26-38 | the only failures are RentalNotFound and RentalCancellation; RentalNotFound exactly when the id is unknown; RentalCancellation exactly when the rental starts today or earlier, so a known rental starting after today is cancelled; the table is unchanged on failure; on success the rental started after today and only rows with that id are gone |
| Reservations.CancelRemovesExactlyOne | CarRental.Domain/Services/CarRentalService.cs:28-36 | with unique ids a successful cancellation deletes exactly one row |
| Reservations.RegisterKeepsTableValid | CarRental.Domain/Services/CarRentalService.cs:157-179 | given a fresh id, registration keeps ids unique and rentals of one car on disjoint days |
| Reservations.ModifyKeepsTableValid | CarRental.Domain/Services/CarRentalService.cs:128-139 | modification keeps ids unique and rentals of one car on disjoint days |
| Reservations.DeletingKeepsTableValid | CarRental.Domain/Services/CarRentalService.cs:36 | deleting one row keeps the table valid |
| Reservations.CancelKeepsTableValid | CarRental.Domain/Services/CarRentalService.cs:26-38 | cancellation keeps the table valid |
| Reservations.RegisterFromToday | CarRental.Domain/Services/CarRentalService.cs:157-158 | a rental starting today passes the date validation, one starting yesterday does not |
| Reservations.CancelFromTomorrow | CarRental.Domain/Services/CarRentalService.cs:31-32 | a rental starting today cannot be cancelled; one starting tomorrow can |
| Reservations.NothingToModify | CarRental.Domain/Services/CarRentalService.cs:122-125 | with every argument omitted and valid stored dates, Modify returns the stored rental and leaves the table as it was |
| Reservations.SecondBookingOfLastCarIsRefused | CarRental.Domain/Services/CarRentalService.cs:161-179 | after the only car of a type and model is booked, a second sequential request over an overlapping range gets CarNotAvailable |
| Reservations.RegistrationOrderMatters | CarRental.Domain/Services/CarRentalService.cs:94-97 | on a one-car fleet, booking [5, 7] then [2, 4] stores both rentals, while booking [2, 4] then [5, 7] refuses the second with CarNotAvailable and keeps one rental |
| Reservations.CarRentalService.GetRentals | CarRental.Domain/Services/CarRentalService.cs:40-44 | returns every rental of the table |
| Reservations.CarRentalService.RegisterRental | CarRental.Domain/Services/CarRentalService.cs:153-181 | outcome and new table are those of RegisterStep; a valid table stays valid when the id is fresh |
| Reservations.CarRentalService.ModifyReservation | CarRental.Domain/Services/CarRentalService.cs:110-143 | outcome and new table are those of ModifyStep; a valid table stays valid |
| Reservations.CarRentalService.CancelRental | CarRental.Domain/Services/CarRentalService.cs:26-38 | outcome and new table are those of CancelStep; a valid table stays valid |
| Reporting.MatchingRentals | CarRental.Domain/Services/RentalReportingService.cs:27-30 | a rental is counted exactly when it shares a day with [s, e], with no grace day, and keeps its multiplicity |
| Reporting.CarOf | CarRental.Domain/Services/RentalReportingService.cs:29 | the navigation property is null exactly when no car has the rental's car id, otherwise a car with that id |
| Reporting.RentedTypes | CarRental.Domain/Services/RentalReportingService.cs:36-37 | a type is listed exactly when some counted rental has a car of that type; the result is empty exactly when no rental has a car |
| Reporting.RentedTypesLength | CarRental.Domain/Services/RentalReportingService.cs:36 | one type is listed per rental that has a car |
| Reporting.RentedTypesMultiplicity | CarRental.Domain/Services/RentalReportingService.cs:36-37 | each type is listed exactly as often as there are rentals of a car of that type |
| Reporting.FirstMaxIndex | CarRental.Domain/Services/RentalReportingService.cs:42 | the chosen group has the largest count and every earlier group a smaller one |
| Reporting.MostRentedFacts | CarRental.Domain/Services/RentalReportingService.cs:35-42 | the chosen group's type is rented, its count is the type's multiplicity and no type is rented more often; the sum is the number of rentals with a car |
| Reporting.Utilisation | CarRental.Domain/Services/RentalReportingService.cs:44-49 | the percentage lies in [0, 100] whenever count <= total |
| Reporting.GetMostRentedCarType | CarRental.Domain/Services/RentalReportingService.cs:22-51 | InvalidRentDates exactly when end < start; ("None", 0) when nothing is counted; NoElements exactly when rentals are counted but none has a car; otherwise a most rented type, its count at most the total, the total being the number of counted rentals with a car |
| Reporting.StrictModeIsReported | CarRental.Domain/Services/RentalReportingService.cs:42-48 | a type rented strictly more often than every other is the one reported, with its count |
| Reporting.TwoSuvsAndASedan | CarRental.Domain/Services/RentalReportingService.cs:44-49 | two SUV rentals and one Sedan rental give SUV with 2 of 3, that is 200/3 percent |
| Reporting.InWindow | CarRental.Domain/Services/RentalReportingService.cs:69 | a service starting today or on today + 14 is in the window, one starting yesterday or on today + 15 is not, and every service in it starts 0 to 14 days from today |
| Reporting.HasUpcoming | CarRental.Domain/Services/RentalReportingService.cs:63 | a car is fetched exactly when one of its services starts in [today, today + 14] |
| Reporting.UpcomingOf | CarRental.Domain/Services/RentalReportingService.cs:68-77 | a car contributes exactly its services starting in the window, each carrying the car's id, type and model and its own start and duration |
| Reporting.Flattened | CarRental.Domain/Services/RentalReportingService.cs:62-77 | the cars with an upcoming service, flattened through SelectMany, give exactly the entries some fleet car contributes |
| Reporting.GetScheduledServicesNextTwoWeeks | CarRental.Domain/Services/RentalReportingService.cs:57-80 | sorted by start date; every entry starts in [today, today + 14] and comes from a car and one of its services; every in-window service of every car is listed, completed ones included |
| Catalog.GetCarTypes | CarRental.Domain/Services/CarService.cs:18-21 | no duplicates; a type is listed exactly when some car has it; no longer than the fleet, so empty for an empty fleet |
| Catalog.GetCarModels | CarRental.Domain/Services/CarService.cs:28-31 | no duplicates; a model is listed exactly when some car has it; no longer than the fleet, so empty for an empty fleet |
| Catalog.UniformFleet | CarRental.Domain/Services/CarService.cs:20 | a non-empty fleet of one type and one model lists exactly that type and that model |
| Customers.MapToDto | CarRental.Domain/Mappers/CustomerMapper.cs:9-22 | null maps to null; otherwise every field is copied |
| Customers.FindByPersonalId | CarRental.Domain/Services/CustomerService.cs:39 | null exactly when no customer has the number; otherwise the first customer that has it |
| Customers.FindAfterAppend | CarRental.Domain/Services/CustomerService.cs:31 | after an insert, a lookup returns the earlier customer with that number if any, else the inserted one when the number matches; other lookups are unchanged |
| Customers.DuplicatesAreKept | CarRental.Domain/Services/CustomerService.cs:21-32 | registering one number twice keeps both customers, and the lookup returns the first |
| Customers.CustomerService.RegisterCustomer | CarRental.Domain/Services/CustomerService.cs:21-35 | appends exactly one customer with the fresh id and the given number, name and address, and returns its DTO |
| Customers.CustomerService.GetCustomer | CarRental.Domain/Services/CustomerService.cs:37-41 | null exactly when no customer has the number; otherwise the DTO of the first match; the table is not modified |
| Caching.EffectiveTtl | CarRental.Domain/Caching/MemoryCacheService.cs:21 | an omitted expiration means thirty minutes, a given one is used as is |
| Caching.Lookup | CarRental.Domain/Caching/MemoryCacheService.cs:38-41 | a value is found exactly when a live entry exists for the key, and it is that entry's value |
| Caching.Write | CarRental.Domain/Caching/MemoryCacheService.cs:28-36 | a write adds the key to the store's keys and no other key |
| Caching.LookupAfterWrite | CarRental.Domain/Caching/MemoryCacheService.cs:24-25 | a written value is read back from the write until its expiry and not from the expiry on |
| Caching.WriteIsolation | CarRental.Domain/Caching/MemoryCacheService.cs:35 | a write to one key leaves every other key's lookups unchanged |
| Caching.DefaultExpiryIsThirtyMinutes | CarRental.Domain/Caching/MemoryCacheService.cs:32 | without an expiration the entry is readable 1799 seconds after the write and gone at 1800 |
| Caching.MemoryCacheService.GetOrSet | CarRental.Domain/Caching/MemoryCacheService.cs:12-26 | on a hit returns the stored value without running the loader and leaves the store alone; on a miss runs the loader, stores its value under the key and returns it; either way the value is readable until the entry expires |
| Caching.MemoryCacheService.Set | CarRental.Domain/Caching/MemoryCacheService.cs:28-36 | overwrites the key's entry, after which it reads back the data, and leaves every other key's lookups unchanged |
| Caching.MemoryCacheService.TryGet | CarRental.Domain/Caching/MemoryCacheService.cs:38-41 | found exactly when a live entry exists for the key, with its value |

## Left out

- HTTP controllers, dependency injection, the Entity Framework repositories and the migration's seed data. Tables are sequences of records and `SaveChangesAsync` is the assignment of the new table.
- Concurrency and transactions. Calls are taken one at a time. The source's unprotected check-then-write at `CarRentalService.cs:161-179` is therefore not modelled for interleaved callers.
- Time of day. Dates are whole days. `CarRentalService.cs:50` and the no-op check at `:122` compare full timestamps: in the source, two different times on the same date count as different values there, but not in this model. The conflict clauses compare full timestamps too (`CarRentalService.cs:57-58`, `:78-80` and `:96-98`, and the service checks of `Car.cs:15-16` and `CarDto.cs:17-18`). Registration checks only the dates (`:157`) but stores the caller's timestamps (`:174-175`). So a stored rental [d 10:00, d + 2 10:00] admits a request for [d - 2 00:00, d 09:00], and two rentals of one car then share day d. The model refuses that request. Conflicts.RentalTurnaround, Reservations.ValidTable and the Reservations.*KeepsTableValid lemmas therefore hold in the source only for rentals stored at midnight. The same holds for the date check at `RentalReportingService.cs:24`. In the two-week report, `RentalReportingService.cs:63` fetches cars by the service's date, while `:69` filters the services on the full timestamp: a service on today + 14 after midnight gets its car fetched but is not listed. The model compares days in both places, so it lists that service.
- The clock (`DateTime.UtcNow`), `Guid.NewGuid()` and the cache's clock. They are the parameters `today`, `newId` and `now`.
- Logging calls (`LogWarning`).
- Text.Lower: only ASCII letters are lowered. Culture-aware case folding is not modelled.
- The `CarType` enum of the domain `Car` is not part of this model. A car type is the string the database stores. `carType.ToString()` is taken to be that string.
- Reporting.Utilisation: the exact ratio `100 * count / total` is kept. The double-precision division and `Math.Round(.., 2)` are not modelled.
- Reporting.GetScheduledServicesNextTwoWeeks: membership and order by start date are stated. Multiplicities and the relative order of services with the same start date are not.
- Availability.GetAvailableCar: the type and model equalities of `CarRentalService.cs:92-93` run as SQL on SQL Server (`CarRental.Api/Program.cs:70`), where `=` follows the database collation. The model uses exact string equality.
- Availability.CheckAvailability: the order of the returned groups is not stated.
- Reservations.ModifyStep: the in-place update of the tracked entity (aliasing between the returned rental and the table row) is modelled as an update by primary key.
- Caching.MemoryCacheService: one value type per cache. The source's single store holds values of any type, and a read at another type misses.
- Caching.MemoryCacheService.GetOrSet, Caching.MemoryCacheService.Set and Caching.Write: a positive expiration is required. The framework rejects a non-positive relative expiration with an exception, and that exception is not modelled. No caller in the repository passes an expiration.
- Caching.MemoryCacheService.GetOrSet: the loader is a total function. A loader that throws, whose exception propagates and leaves nothing stored, is not modelled. One instant `now` serves both the lookup and the write, while in the source the expiry counts from the `Set` that runs after the awaited loader returns.
- Caching.MemoryCacheService.GetOrSet: eviction under memory pressure and sliding expiration are not modelled.
- The DTO copies of rentals (`RentalMapper`) are identity projections.
