/** Records of the payroll backend: the rows of the `user` and `salary`
    tables, the candidates the extraction step produces, and the
    wrappers the handlers use for absent values and HTTP errors. */
module Types {

  datatype Option<+T> = None | Some(value: T) {
    /** `a ?? b` in the handlers: the value if present, `default` otherwise. */
    function GetOr(default: T): T {
      match this
      case Some(v) => v
      case None => default
    }
  }

  /** An HTTP error raised through `createError`. */
  datatype HttpError = HttpError(statusCode: int, statusMessage: string)

  datatype Result<+R> = Success(value: R) | Failure(error: HttpError)

  /** The baseline salary every handler falls back to. */
  const BaseSalary: int := 4900

  /** A worker as the API returns it; the table stores every field but `job`,
      which is derived on the way out. */
  datatype User = User(
    id: string,
    identity: string,
    name: string,
    phone: string,
    bankcard: string,
    address: string,
    salary: int,
    job: Option<string>)

  /** One row of the append-only `salary` table: a copy of the worker taken
      when a sheet is generated. Attendance days are kept in tenths. */
  datatype Salary = Salary(
    id: string,
    sheetDate: int,
    salaryDate: string,
    identity: string,
    name: string,
    phone: string,
    bankcard: string,
    address: string,
    salary: int,
    dailyWage: int,
    attendanceTenths: int,
    job: Option<string>)

  /** The six columns every UPDATE statement of the backend sets. */
  datatype Fields = Fields(
    identity: string,
    name: string,
    phone: string,
    bankcard: string,
    address: string,
    salary: int)

  /** A record extracted from a photographed document; any field may be absent. */
  datatype Candidate = Candidate(
    identity: Option<string>,
    name: Option<string>,
    phone: Option<string>,
    bankcard: Option<string>,
    address: Option<string>,
    salary: Option<int>)

  /** `UPDATE user SET identity = .., name = .., phone = .., bankcard = .., address = .., salary = ..`
      applied to one row: the id and the derived job are untouched. */
  function Assign(u: User, f: Fields): (r: User)
    ensures r.id == u.id && r.job == u.job
    ensures r.identity == f.identity && r.name == f.name && r.phone == f.phone
    ensures r.bankcard == f.bankcard && r.address == f.address && r.salary == f.salary
  {
    u.(identity := f.identity, name := f.name, phone := f.phone,
       bankcard := f.bankcard, address := f.address, salary := f.salary)
  }

  /** JavaScript truthiness of an optional string: present and not empty. */
  predicate Truthy(s: Option<string>) {
    s.Some? && s.value != ""
  }
}
