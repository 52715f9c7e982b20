/** `PATCH /api/users`: overwrite one worker's fields by id. */
module UsersPatch {
  import opened Types
  import opened Tables
  import opened Store

  const PatchedMessage: string := "sucess"

  /** The request body; only the salary may be absent. */
  datatype PatchBody = PatchBody(
    id: string,
    identity: string,
    name: string,
    phone: string,
    bankcard: string,
    address: string,
    salary: Option<int>)

  /** The six columns the UPDATE writes; `salary ?? 4900` keeps a 0. */
  function PatchFields(b: PatchBody): (f: Fields)
    ensures f.salary == (if b.salary.Some? then b.salary.value else 4900)
    ensures f.identity == b.identity && f.name == b.name && f.phone == b.phone
    ensures f.bankcard == b.bankcard && f.address == b.address
  {
    Fields(b.identity, b.name, b.phone, b.bankcard, b.address, b.salary.GetOr(BaseSalary))
  }

  /** The table after the update. */
  function Patched(t: seq<User>, b: PatchBody): seq<User> {
    SetWhereId(t, b.id, PatchFields(b))
  }

  method PatchUser(db: Database, body: PatchBody) returns (msg: string)
    requires db.Valid()
    modifies db
    ensures db.Valid() && db.salaries == old(db.salaries)
    ensures db.users == Patched(old(db.users), body)
    ensures msg == PatchedMessage
  {
    db.UpdateUser(body.id, PatchFields(body));
    msg := PatchedMessage;
  }

  /** Only the row with the body's id changes, and it takes the body's fields;
      every other row, and the table's length and order, stay as they were. */
  lemma PatchTouchesOnlyTarget(t: seq<User>, b: PatchBody)
    requires UniqueIds(t)
    ensures |Patched(t, b)| == |t|
    ensures forall i :: 0 <= i < |t| && t[i].id != b.id ==> Patched(t, b)[i] == t[i]
    ensures forall i :: 0 <= i < |t| && t[i].id == b.id ==>
              Patched(t, b)[i] == Assign(t[i], PatchFields(b)) &&
              forall j :: 0 <= j < |t| && j != i ==> Patched(t, b)[j] == t[j]
  {
    forall i, j | 0 <= i < |t| && 0 <= j < |t| && t[i].id == b.id && j != i
      ensures Patched(t, b)[j] == t[j]
    {
      assert t[j].id != t[i].id by {
        if i < j { assert t[i].id != t[j].id; } else { assert t[j].id != t[i].id; }
      }
    }
  }

  /** An id no row carries changes nothing. */
  lemma PatchUnknownId(t: seq<User>, b: PatchBody)
    requires b.id !in Ids(t)
    ensures Patched(t, b) == t
  {
    SetWhereIdAbsent(t, b.id, PatchFields(b));
  }

  /** Sending the same patch twice has the effect of sending it once. */
  lemma PatchIdempotent(t: seq<User>, b: PatchBody)
    ensures Patched(Patched(t, b), b) == Patched(t, b)
  {
    var once := Patched(t, b);
    var twice := Patched(once, b);
    forall i | 0 <= i < |t| ensures twice[i] == once[i] { }
  }
}
