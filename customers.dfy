/**
 * `CustomerService`: customers are registered without any uniqueness check
 * and looked up by personal identification number, first match wins.
 */
module Customers {
  import opened Outcomes
  import opened Queries
  import opened Entities

  /** `CustomerDto` */
  datatype CustomerDto = CustomerDto(id: Guid, personalIdNumber: int, fullName: string, address: string)

  /** `CustomerMapper.MapToDto`: null stays null, otherwise every field is copied. */
  function MapToDto(customer: Option<Customer>): (dto: Option<CustomerDto>)
    ensures dto.None? <==> customer.None?
    ensures dto.Some? ==> var c := customer.value;
              dto.value == CustomerDto(c.id, c.personalIdNumber, c.fullName, c.address)
  {
    match customer
    case None => None
    case Some(c) => Some(CustomerDto(c.id, c.personalIdNumber, c.fullName, c.address))
  }

  /** `Customers.FindAsync(c => c.PersonalIdNumber == n).FirstOrDefault()` */
  function FindByPersonalId(customers: seq<Customer>, personalIdNumber: int): (r: Option<Customer>)
    ensures r.None? <==> forall c :: c in customers ==> c.personalIdNumber != personalIdNumber
    ensures r.Some? ==> exists i :: 0 <= i < |customers| && customers[i] == r.value &&
                                   r.value.personalIdNumber == personalIdNumber &&
                                   forall j :: 0 <= j < i ==> customers[j].personalIdNumber != personalIdNumber
  {
    var r := FirstOrDefault(customers, (c: Customer) => c.personalIdNumber == personalIdNumber);
    assert r.None? ==> forall i :: 0 <= i < |customers| ==> customers[i].personalIdNumber != personalIdNumber;
    r
  }

  /** After appending a customer, a lookup by its number finds the earlier customer with that
      number if there is one, and the appended one otherwise; other numbers are unaffected. */
  lemma {:induction false} FindAfterAppend(customers: seq<Customer>, c: Customer, n: int)
    ensures FindByPersonalId(customers + [c], n) ==
              if FindByPersonalId(customers, n).Some? || c.personalIdNumber != n then FindByPersonalId(customers, n)
              else Some(c)
  {
    if customers != [] {
      assert (customers + [c])[1..] == customers[1..] + [c];
      FindAfterAppend(customers[1..], c, n);
    }
  }

  /** Registering the same number twice keeps both customers; the lookup returns the first. */
  lemma DuplicatesAreKept(customers: seq<Customer>, a: Customer, b: Customer)
    requires a.personalIdNumber == b.personalIdNumber
    requires forall c :: c in customers ==> c.personalIdNumber != a.personalIdNumber
    ensures var after := customers + [a] + [b];
            a in after && b in after && FindByPersonalId(after, a.personalIdNumber) == Some(a)
  {
    FindAfterAppend(customers, a, a.personalIdNumber);
    FindAfterAppend(customers + [a], b, a.personalIdNumber);
  }

  /** The customer table of the service. */
  class CustomerService {
    var customers: seq<Customer>

    constructor(customers: seq<Customer>)
      ensures this.customers == customers
    {
      this.customers := customers;
    }

    /** `RegisterCustomerAsync`; `newId` stands for `Guid.NewGuid()`. */
    method RegisterCustomer(personalIdNumber: int, fullName: string, address: string, newId: Guid)
      returns (dto: CustomerDto)
      modifies this
      ensures customers == old(customers) + [Customer(newId, personalIdNumber, fullName, address)]
      ensures dto == CustomerDto(newId, personalIdNumber, fullName, address)
    {
      var customer := Customer(newId, personalIdNumber, fullName, address);
      customers := customers + [customer];
      dto := MapToDto(Some(customer)).value;
    }

    /** `GetCustomerAsync`: null when no customer has the number. */
    method GetCustomer(personalIdNumber: int) returns (dto: Option<CustomerDto>)
      ensures dto.None? <==> forall c :: c in customers ==> c.personalIdNumber != personalIdNumber
      ensures dto == MapToDto(FindByPersonalId(customers, personalIdNumber))
    {
      var customer := FindByPersonalId(customers, personalIdNumber);
      dto := MapToDto(customer);
    }
  }
}
