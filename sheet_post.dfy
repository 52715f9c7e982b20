/** `POST /api/sheet`: for every selected worker derive a (daily wage,
    attendance days) pair whose quotient is the salary, lay out the rows of
    the payroll sheet with a total, refresh the worker's record and append a
    snapshot row, all under one timestamp. */
module SheetPost {
  import opened Types
  import opened Tables
  import opened Store

  const NoUsersMessage: string := "No user data provided for sheet generation"
  const TotalLabel: string := "合计"

  /** The salary whose decomposition is fixed rather than sampled. */
  const ReferenceSalary: int := 4900
  /** At most 28 attendance days, in tenths. */
  const MaxTenths: int := 280
  /** The largest wage a draw can produce. */
  const TopWage: int := 260

  // ---------------------------------------------------------------------
  // The daily-wage search

  /** `Math.floor(Math.random() * 12)`: a draw is one of 0..11. */
  predicate IsDraw(k: int) {
    0 <= k < 12
  }

  predicate ValidDraws(draws: seq<int>) {
    forall j :: 0 <= j < |draws| ==> IsDraw(draws[j])
  }

  /** `draw * 10 + 150`. */
  function WageOf(k: int): (w: int)
    requires IsDraw(k)
    ensures 150 <= w <= TopWage && w % 10 == 0
  {
    10 * k + 150
  }

  /** `Number.parseFloat((salary / wage).toFixed(1))` as a count of tenths:
      the nearest tenth, halves rounded away from zero. */
  function DaysTenths(salary: int, wage: int): (r: int)
    requires wage > 0
    ensures salary >= 0 ==> 2 * wage * r - wage <= 20 * salary < 2 * wage * r + wage
    ensures salary < 0 ==> 2 * wage * -r - wage <= 20 * -salary < 2 * wage * -r + wage
  {
    if salary >= 0 then (20 * salary + wage) / (2 * wage)
    else -((20 * -salary + wage) / (2 * wage))
  }

  /** The loop's exit test `attendanceDays <= 28` for the wage of a draw. */
  predicate Acceptable(salary: int, k: int)
    requires IsDraw(k)
  {
    DaysTenths(salary, WageOf(k)) <= MaxTenths
  }

  /** The retry loop exits on these draws: the salary is the reference one,
      or some draw is acceptable. */
  predicate Terminates(salary: int, draws: seq<int>)
    requires ValidDraws(draws)
  {
    salary == ReferenceSalary || exists i :: 0 <= i < |draws| && Acceptable(salary, draws[i])
  }

  /** The position of the first acceptable draw. */
  function FirstAcceptable(salary: int, draws: seq<int>): (i: nat)
    requires ValidDraws(draws)
    requires exists i :: 0 <= i < |draws| && Acceptable(salary, draws[i])
    ensures i < |draws| && Acceptable(salary, draws[i])
    ensures forall j :: 0 <= j < i ==> !Acceptable(salary, draws[j])
    decreases |draws|
  {
    if Acceptable(salary, draws[0]) then 0
    else
      assert exists i :: 0 <= i < |draws[1..]| && Acceptable(salary, draws[1..][i]) by {
        var i :| 0 <= i < |draws| && Acceptable(salary, draws[i]);
        assert draws[1..][i - 1] == draws[i];
      }
      1 + FirstAcceptable(salary, draws[1..])
  }

  datatype Wage = Wage(dailyWage: int, attendanceTenths: int)

  /** The pair the loop settles on: 350 and 14 days for the reference salary,
      otherwise the wage of the first draw giving at most 28 days, which is
      150..260 in steps of 10, with its rounded quotient. */
  function Decompose(salary: int, draws: seq<int>): (w: Wage)
    requires ValidDraws(draws) && Terminates(salary, draws)
    ensures salary == ReferenceSalary ==> w == Wage(350, 140)
    ensures salary != ReferenceSalary ==>
              exists j :: 0 <= j < |draws| && w.dailyWage == WageOf(draws[j]) &&
                          Acceptable(salary, draws[j]) &&
                          forall i :: 0 <= i < j ==> !Acceptable(salary, draws[i])
    ensures salary != ReferenceSalary ==>
              150 <= w.dailyWage <= TopWage && w.dailyWage % 10 == 0 &&
              w.attendanceTenths == DaysTenths(salary, w.dailyWage) &&
              w.attendanceTenths <= MaxTenths
  {
    if salary == ReferenceSalary then Wage(350, 140)
    else
      var k := draws[FirstAcceptable(salary, draws)];
      Wage(WageOf(k), DaysTenths(salary, WageOf(k)))
  }

  /** The `if`/`do ... while` of the loop body: draws are consumed until one
      gives at most 28 days. */
  method DeriveWage(salary: int, draws: seq<int>) returns (dailyWage: int, attendanceTenths: int)
    requires ValidDraws(draws) && Terminates(salary, draws)
    ensures Wage(dailyWage, attendanceTenths) == Decompose(salary, draws)
  {
    if salary == ReferenceSalary {
      dailyWage := 350;
      attendanceTenths := 140;
    } else {
      ghost var first := FirstAcceptable(salary, draws);
      var i := 0;
      dailyWage := WageOf(draws[i]);
      attendanceTenths := DaysTenths(salary, dailyWage);
      while attendanceTenths > MaxTenths
        invariant 0 <= i <= first
        invariant dailyWage == WageOf(draws[i])
        invariant attendanceTenths == DaysTenths(salary, dailyWage)
        decreases first - i
      {
        i := i + 1;
        dailyWage := WageOf(draws[i]);
        attendanceTenths := DaysTenths(salary, dailyWage);
      }
    }
  }

  /** Some draw yields an acceptable wage exactly when the salary is at most
      7292: the top wage 260 then gives at most 28.0 days, and above it every
      wage gives more than 28, so the source loop never ends. */
  lemma AcceptableWageExists(salary: int)
    ensures (exists k :: IsDraw(k) && Acceptable(salary, k)) <==> salary <= 7292
  {
    if salary <= 7292 {
      assert IsDraw(11) && Acceptable(salary, 11);
    } else {
      forall k | IsDraw(k) ensures !Acceptable(salary, k) {
        var w := WageOf(k);
        var r := DaysTenths(salary, w);
        assert 561 * w <= 145860 < 20 * salary + 1;
      }
    }
  }

  // ---------------------------------------------------------------------
  // The sheet

  /** One row of the worksheet; the total row leaves every other cell blank. */
  datatype SheetRow =
    | DataRow(index: int, name: string, job: Option<string>, address: string, bankcard: string,
              phone: string, identity: string, dailyWage: int, attendanceTenths: int,
              attendanceSalary: int, signature: string)
    | TotalRow(caption: string, attendanceSalary: int)

  /** What the inputs must satisfy: one draw sequence and one snapshot uuid
      per user, every retry loop able to finish, and the uuids new. */
  predicate SheetInputs(users: seq<User>, draws: seq<seq<int>>, snapshotIds: seq<string>, salaries: seq<Salary>) {
    |draws| == |users| && |snapshotIds| == |users| &&
    (forall i :: 0 <= i < |users| ==> ValidDraws(draws[i]) && Terminates(users[i].salary, draws[i])) &&
    Distinct(snapshotIds) &&
    (forall i :: 0 <= i < |snapshotIds| ==> snapshotIds[i] !in SnapshotIds(salaries))
  }

  /** The decomposition of every user's salary, in order. */
  function Wages(users: seq<User>, draws: seq<seq<int>>): (ws: seq<Wage>)
    requires |draws| == |users|
    requires forall i :: 0 <= i < |users| ==> ValidDraws(draws[i]) && Terminates(users[i].salary, draws[i])
    ensures |ws| == |users|
  {
    seq(|users|, i requires 0 <= i < |users| => Decompose(users[i].salary, draws[i]))
  }

  function DataRowOf(index: int, u: User, w: Wage): SheetRow {
    DataRow(index + 1, u.name, u.job, u.address, u.bankcard, u.phone, u.identity,
            w.dailyWage, w.attendanceTenths, u.salary, "")
  }

  function DataRows(users: seq<User>, ws: seq<Wage>): seq<SheetRow>
    requires |ws| == |users|
  {
    seq(|users|, i requires 0 <= i < |users| => DataRowOf(i, users[i], ws[i]))
  }

  /** `totalSalary += user.salary` over the users, in order. */
  function SumSalaries(users: seq<User>): int {
    if users == [] then 0 else SumSalaries(users[..|users| - 1]) + users[|users| - 1].salary
  }

  /** The sum of the attendance-salary column of some rows. */
  function SumColumn(rows: seq<SheetRow>): int {
    if rows == [] then 0 else SumColumn(rows[..|rows| - 1]) + rows[|rows| - 1].attendanceSalary
  }

  /** The data rows followed by the total row. */
  function Sheet(users: seq<User>, ws: seq<Wage>): seq<SheetRow>
    requires |ws| == |users|
  {
    DataRows(users, ws) + [TotalRow(TotalLabel, SumSalaries(users))]
  }

  /** The snapshot row appended for one user under the shared timestamp. */
  function SnapshotOf(id: string, sheetDate: int, salaryDate: string, u: User, w: Wage): Salary {
    Salary(id, sheetDate, salaryDate, u.identity, u.name, u.phone, u.bankcard, u.address,
           u.salary, w.dailyWage, w.attendanceTenths, u.job)
  }

  function Snapshots(users: seq<User>, ws: seq<Wage>, ids: seq<string>, sheetDate: int, salaryDate: string): seq<Salary>
    requires |ws| == |users| && |ids| == |users|
  {
    seq(|users|, i requires 0 <= i < |users| => SnapshotOf(ids[i], sheetDate, salaryDate, users[i], ws[i]))
  }

  /** The columns the per-user UPDATE writes. */
  function UserFields(u: User): Fields {
    Fields(u.identity, u.name, u.phone, u.bankcard, u.address, u.salary)
  }

  /** The `user` table after the per-user UPDATEs, issued in order. */
  function ApplyUpdates(t: seq<User>, users: seq<User>): seq<User> {
    if users == [] then t
    else
      var n := |users| - 1;
      SetWhereId(ApplyUpdates(t, users[..n]), users[n].id, UserFields(users[n]))
  }

  /** The last user of the request carrying a given id, if any. */
  function LastWithId(users: seq<User>, id: string): Option<User> {
    if users == [] then None
    else if users[|users| - 1].id == id then Some(users[|users| - 1])
    else LastWithId(users[..|users| - 1], id)
  }

  // ---------------------------------------------------------------------
  // Properties of the sheet

  /** The rows come in input order, numbered from 1, each copying its user's
      name, job, address, bankcard, phone and identity, with an empty
      signature, the user's salary as its attendance salary and its own
      wage pair; then one total row closes the sheet. */
  lemma SheetLayout(users: seq<User>, ws: seq<Wage>)
    requires |ws| == |users|
    ensures var s := Sheet(users, ws);
            && |s| == |users| + 1
            && s[|users|] == TotalRow(TotalLabel, SumSalaries(users))
            && forall i :: 0 <= i < |users| ==>
                 s[i].DataRow? && s[i].index == i + 1 && s[i].signature == "" &&
                 s[i].name == users[i].name && s[i].identity == users[i].identity &&
                 s[i].phone == users[i].phone && s[i].bankcard == users[i].bankcard &&
                 s[i].address == users[i].address && s[i].job == users[i].job &&
                 s[i].attendanceSalary == users[i].salary &&
                 s[i].dailyWage == ws[i].dailyWage && s[i].attendanceTenths == ws[i].attendanceTenths
  {
  }

  lemma {:induction false} SumColumnPrefix(users: seq<User>, ws: seq<Wage>, k: nat)
    requires |ws| == |users| && k <= |users|
    ensures SumColumn(DataRows(users, ws)[..k]) == SumSalaries(users[..k])
  {
    if k > 0 {
      SumColumnPrefix(users, ws, k - 1);
      assert DataRows(users, ws)[..k][..k - 1] == DataRows(users, ws)[..k - 1];
      assert users[..k][..k - 1] == users[..k - 1];
    }
  }

  /** The total row holds the sum of the attendance-salary column above it,
      whatever wages were drawn. */
  lemma TotalIsColumnSum(users: seq<User>, ws: seq<Wage>)
    requires |ws| == |users|
    ensures var s := Sheet(users, ws);
            s[|s| - 1].attendanceSalary == SumColumn(s[..|s| - 1])
  {
    var s := Sheet(users, ws);
    assert s[..|s| - 1] == DataRows(users, ws)[..|users|];
    SumColumnPrefix(users, ws, |users|);
    assert users[..|users|] == users;
  }

  /** A stored row is overwritten by the last user of the request with its id;
      a row no user names is untouched; nothing is added or removed. */
  lemma {:induction false} UpdatesOverwrite(t: seq<User>, users: seq<User>)
    ensures |ApplyUpdates(t, users)| == |t|
    ensures forall i :: 0 <= i < |t| ==>
              ApplyUpdates(t, users)[i] ==
                (match LastWithId(users, t[i].id)
                 case None => t[i]
                 case Some(u) => Assign(t[i], UserFields(u)))
  {
    if users != [] {
      var n := |users| - 1;
      UpdatesOverwrite(t, users[..n]);
    }
  }

  /** One snapshot per user, in order, all under the same sheet date and
      period label, each a copy of its user with its wage pair. */
  lemma SnapshotsPerUser(users: seq<User>, ws: seq<Wage>, ids: seq<string>, sheetDate: int, salaryDate: string)
    requires |ws| == |users| && |ids| == |users|
    ensures var s := Snapshots(users, ws, ids, sheetDate, salaryDate);
            && |s| == |users|
            && forall i :: 0 <= i < |s| ==>
                 s[i].sheetDate == sheetDate && s[i].salaryDate == salaryDate && s[i].id == ids[i] &&
                 s[i].identity == users[i].identity && s[i].name == users[i].name &&
                 s[i].phone == users[i].phone && s[i].bankcard == users[i].bankcard &&
                 s[i].address == users[i].address && s[i].job == users[i].job &&
                 s[i].salary == users[i].salary && s[i].dailyWage == ws[i].dailyWage &&
                 s[i].attendanceTenths == ws[i].attendanceTenths
  {
  }

  // ---------------------------------------------------------------------
  // The handler

  lemma SnapshotIdsAppend(s: seq<Salary>, x: Salary)
    ensures SnapshotIds(s + [x]) == SnapshotIds(s) + {x.id}
  {
    forall r | r in s + [x] ensures r in s || r == x { }
    assert x in s + [x];
    forall r | r in s ensures r in s + [x] { }
  }

  /** The prefix identities the handler's loop advances by one user. */
  lemma PrefixStep(t: seq<User>, us: seq<User>, ws: seq<Wage>, ids: seq<string>, sheetDate: int, salaryDate: string, k: nat)
    requires |ws| == |us| && |ids| == |us| && k < |us|
    ensures SumSalaries(us[..k + 1]) == SumSalaries(us[..k]) + us[k].salary
    ensures DataRows(us, ws)[..k + 1] == DataRows(us, ws)[..k] + [DataRowOf(k, us[k], ws[k])]
    ensures ApplyUpdates(t, us[..k + 1]) == SetWhereId(ApplyUpdates(t, us[..k]), us[k].id, UserFields(us[k]))
    ensures Snapshots(us, ws, ids, sheetDate, salaryDate)[..k + 1]
         == Snapshots(us, ws, ids, sheetDate, salaryDate)[..k] + [SnapshotOf(ids[k], sheetDate, salaryDate, us[k], ws[k])]
  {
    assert us[..k + 1][..k] == us[..k];
  }

  /** After the k-th snapshot is appended, the uuids still to come remain new. */
  lemma FreshAfterInsert(s: seq<Salary>, x: Salary, ids: seq<string>, k: nat)
    requires k < |ids| && x.id == ids[k]
    requires Distinct(ids)
    requires forall j :: k <= j < |ids| ==> ids[j] !in SnapshotIds(s)
    ensures forall j :: k + 1 <= j < |ids| ==> ids[j] !in SnapshotIds(s + [x])
  {
    SnapshotIdsAppend(s, x);
  }

  /** The two statements the handler issues for one user: refresh its record
      and append its snapshot. */
  method RecordUser(db: Database, user: User, snapshotId: string, sheetDate: int, salaryDate: string,
                    dailyWage: int, attendanceTenths: int)
    requires db.Valid() && snapshotId !in SnapshotIds(db.salaries)
    modifies db
    ensures db.Valid()
    ensures db.users == SetWhereId(old(db.users), user.id, UserFields(user))
    ensures db.salaries == old(db.salaries) + [SnapshotOf(snapshotId, sheetDate, salaryDate, user, Wage(dailyWage, attendanceTenths))]
  {
    db.UpdateUser(user.id, UserFields(user));
    var snapshot := Salary(snapshotId, sheetDate, salaryDate, user.identity, user.name, user.phone,
                           user.bankcard, user.address, user.salary, dailyWage, attendanceTenths, user.job);
    db.InsertSalary(snapshot);
  }

  /** `users` is `None` when the body or its list is missing. `sheetDate` is
      `Date.now()`, `draws` the values `Math.random()` yields for each user
      and `snapshotIds` the uuids of the snapshot rows. */
  method PostSheet(db: Database, users: Option<seq<User>>, salaryDate: string, sheetDate: int,
                   draws: seq<seq<int>>, snapshotIds: seq<string>) returns (r: Result<seq<SheetRow>>)
    requires db.Valid()
    requires users.Some? ==> SheetInputs(users.value, draws, snapshotIds, db.salaries)
    modifies db
    ensures db.Valid()
    ensures (users.None? || users.value == []) ==>
              r == Failure(HttpError(400, NoUsersMessage)) &&
              db.users == old(db.users) && db.salaries == old(db.salaries)
    ensures users.Some? && users.value != [] ==>
              var ws := Wages(users.value, draws);
              && r == Success(Sheet(users.value, ws))
              && db.users == ApplyUpdates(old(db.users), users.value)
              && db.salaries == old(db.salaries) + Snapshots(users.value, ws, snapshotIds, sheetDate, salaryDate)
  {
    if users.None? || |users.value| == 0 {
      return Failure(HttpError(400, NoUsersMessage));
    }
    var us := users.value;
    ghost var ws := Wages(us, draws);
    ghost var t0 := db.users;
    ghost var s0 := db.salaries;
    var totalSalary := 0;
    var rows: seq<SheetRow> := [];
    for index := 0 to |us|
      invariant db.Valid()
      invariant totalSalary == SumSalaries(us[..index])
      invariant rows == DataRows(us, ws)[..index]
      invariant db.users == ApplyUpdates(t0, us[..index])
      invariant db.salaries == s0 + Snapshots(us, ws, snapshotIds, sheetDate, salaryDate)[..index]
      invariant forall j :: index <= j < |us| ==> snapshotIds[j] !in SnapshotIds(db.salaries)
    {
      var user := us[index];
      var dailyWage, attendanceTenths := DeriveWage(user.salary, draws[index]);
      var attendanceSalary := user.salary;
      totalSalary := totalSalary + attendanceSalary;
      rows := rows + [DataRow(index + 1, user.name, user.job, user.address, user.bankcard, user.phone,
                              user.identity, dailyWage, attendanceTenths, attendanceSalary, "")];
      PrefixStep(t0, us, ws, snapshotIds, sheetDate, salaryDate, index);
      RecordUser(db, user, snapshotIds[index], sheetDate, salaryDate, dailyWage, attendanceTenths);
      FreshAfterInsert(s0 + Snapshots(us, ws, snapshotIds, sheetDate, salaryDate)[..index],
                       SnapshotOf(snapshotIds[index], sheetDate, salaryDate, user, ws[index]),
                       snapshotIds, index);
    }
    assert us[..|us|] == us;
    assert DataRows(us, ws)[..|us|] == DataRows(us, ws);
    assert Snapshots(us, ws, snapshotIds, sheetDate, salaryDate)[..|us|] == Snapshots(us, ws, snapshotIds, sheetDate, salaryDate);
    rows := rows + [TotalRow(TotalLabel, totalSalary)];
    r := Success(rows);
  }
}
