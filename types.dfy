/** The customer entity shared by the browser and the server (src/types.ts). */
module Types {
  import opened Wrappers

  /** The three fields that customer validation looks at. */
  datatype Field = FirstName | LastName | PhoneNumber

  /** The property name under which a field is stored and reported. */
  function FieldName(f: Field): string
  {
    match f
    case FirstName => "firstName"
    case LastName => "lastName"
    case PhoneNumber => "phoneNumber"
  }

  /**
   * A customer as the browser and the request body carry it: every property
   * may be missing (`Partial<CustomerWithId>`).
   */
  datatype Customer = Customer(
    firstName: Option<string>,
    lastName: Option<string>,
    phoneNumber: Option<string>,
    stylist: Option<string>,
    service: Option<string>,
    notes: Option<string>,
    id: Option<string>)
  {
    function Get(f: Field): Option<string>
    {
      match f
      case FirstName => firstName
      case LastName => lastName
      case PhoneNumber => phoneNumber
    }
  }
}
