/**
 * The record shapes of the users feature: the user as the remote endpoint
 * delivers it, the per-department summary the aggregator builds, and the
 * response envelope. Nested objects of the source (`hair`, `address`,
 * `company`) are kept as their own datatypes so that field paths read as in
 * the source. An absent hair colour or postal code is the empty string,
 * which is exactly what the source's truthiness tests treat as absent.
 */
module UserModel {

  datatype Hair = Hair(color: string)

  datatype Address = Address(postalCode: string)

  datatype Company = Company(department: string)

  /** One user record. Ages are natural numbers. */
  datatype User = User(
    id: int,
    firstName: string,
    lastName: string,
    gender: string,
    age: nat,
    hair: Hair,
    address: Address,
    company: Company)

  /**
   * Statistics for one department: gender counters, the `"min-max"` age
   * range string (empty before any user was seen), a hair-colour histogram
   * and a map from concatenated full name to postal code.
   */
  datatype DeptSummary = DeptSummary(
    male: nat,
    female: nat,
    ageRange: string,
    hair: map<string, nat>,
    addressUser: map<string, string>)

  /** The aggregator's output: department name to its summary. */
  type TransformedData = map<string, DeptSummary>

  /** The JSON envelope `{ users: User[] }` of the remote endpoint. */
  datatype ApiResponse = ApiResponse(users: seq<User>)

  /** The key a user's postal code is filed under: first name then last name, no separator. */
  function FullName(u: User): string
  {
    u.firstName + u.lastName
  }

  /** The department a user is grouped under. */
  function Dept(u: User): string
  {
    u.company.department
  }
}
