/** The database handle the handlers share: the `user` and `salary` tables
    as fields, with one method per SQL statement the backend issues. */
module Store {
  import opened Types
  import opened Tables

  /** The primary keys of the `salary` table. */
  function SnapshotIds(s: seq<Salary>): set<string> {
    set r | r in s :: r.id
  }

  /** `id` is the primary key of the `salary` table: no two rows share it. */
  predicate UniqueSnapshotIds(s: seq<Salary>) {
    forall i, j :: 0 <= i < j < |s| ==> s[i].id != s[j].id
  }

  class Database {
    var users: seq<User>
    var salaries: seq<Salary>

    /** Both primary keys hold, and the `user` table stores no job. */
    ghost predicate Valid()
      reads this
    {
      ValidTable(users) && UniqueSnapshotIds(salaries)
    }

    constructor (users0: seq<User>, salaries0: seq<Salary>)
      requires ValidTable(users0)
      requires UniqueSnapshotIds(salaries0)
      ensures Valid()
      ensures users == users0 && salaries == salaries0
    {
      users := users0;
      salaries := salaries0;
    }

    /** SELECT * FROM user */
    method SelectUsers() returns (rows: seq<User>)
      ensures rows == users
    {
      rows := users;
    }

    /** SELECT * FROM user WHERE identity = ? OR name = ? */
    method SelectUsersMatching(identity: Option<string>, name: Option<string>) returns (rows: seq<User>)
      ensures rows == Matching(users, identity, name)
    {
      rows := Matching(users, identity, name);
    }

    /** INSERT INTO user (...) VALUES (...) */
    method InsertUser(u: User)
      requires Valid()
      requires u.id !in Ids(users) && u.job.None?
      modifies this
      ensures Valid()
      ensures users == old(users) + [u] && salaries == old(salaries)
    {
      UniqueAppend(users, u);
      users := users + [u];
    }

    /** UPDATE user SET identity, name, phone, bankcard, address, salary WHERE id = k */
    method UpdateUser(k: string, f: Fields)
      requires Valid()
      modifies this
      ensures Valid()
      ensures users == SetWhereId(old(users), k, f) && salaries == old(salaries)
    {
      SetWhereIdValid(users, k, f);
      users := SetWhereId(users, k, f);
    }

    /** DELETE FROM user WHERE id = k */
    method DeleteUser(k: string)
      requires Valid()
      modifies this
      ensures Valid()
      ensures users == Without(old(users), {k}) && salaries == old(salaries)
    {
      WithoutValid(users, {k});
      users := Without(users, {k});
    }

    /** INSERT INTO salary (...) VALUES (...) */
    method InsertSalary(s: Salary)
      requires Valid()
      requires s.id !in SnapshotIds(salaries)
      modifies this
      ensures Valid()
      ensures salaries == old(salaries) + [s] && users == old(users)
    {
      salaries := salaries + [s];
    }
  }

  /** Appending a row with a fresh id and no job keeps a table valid. */
  lemma UniqueAppend(t: seq<User>, u: User)
    requires ValidTable(t) && u.id !in Ids(t) && u.job.None?
    ensures ValidTable(t + [u]) && Ids(t + [u]) == Ids(t) + {u.id}
  {
    var r := t + [u];
    forall i, j | 0 <= i < j < |r| ensures r[i].id != r[j].id {
      if j == |t| {
        assert r[i] == t[i] && t[i] in t;
      } else {
        assert r[i] == t[i] && r[j] == t[j];
      }
    }
    forall v | v in r ensures v == u || v in t { }
  }
}
