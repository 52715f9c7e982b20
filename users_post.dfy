/** The reconciler of `POST /api/users`: every candidate extracted from the
    uploaded images is matched against the `user` table by identity OR name,
    then rejected as incomplete, inserted, or merged into the first match
    (after the other matches are deleted). */
module UsersPost {
  import opened Types
  import opened Tables
  import opened Store
  import opened Classifier

  // ---------------------------------------------------------------------
  // Per-candidate decisions

  /** The five fields a candidate must carry to be stored; salary may be missing. */
  predicate Complete(c: Candidate) {
    Truthy(c.identity) && Truthy(c.name) && Truthy(c.address) && Truthy(c.bankcard) && Truthy(c.phone)
  }

  /** The rows the lookup for `c` returns, in table order. */
  function MatchesOf(t: seq<User>, c: Candidate): seq<User> {
    Matching(t, c.identity, c.name)
  }

  /** Salary of an inserted row: `user.salary || 4900`, so 0 counts as missing. */
  function InsertedSalary(c: Candidate): int {
    if c.salary.Some? && c.salary.value != 0 then c.salary.value else BaseSalary
  }

  /** Salary of a merged row: `user.salary ?? existing.salary`, so 0 is kept. */
  function MergedSalary(c: Candidate, existing: User): int {
    c.salary.GetOr(existing.salary)
  }

  /** The six columns written for a complete candidate. */
  function CandidateFields(c: Candidate, salary: int): (f: Fields)
    requires Complete(c)
    ensures f.identity != "" && f.name != "" && f.phone != "" && f.bankcard != "" && f.address != ""
    ensures f.salary == salary
  {
    Fields(c.identity.value, c.name.value, c.phone.value, c.bankcard.value, c.address.value, salary)
  }

  /** The user record pushed to the response (and, for an insert, stored). */
  function Record(id: string, f: Fields): (u: User)
    ensures u.id == id && u.job == None
    ensures Assign(u, f) == u
  {
    User(id, f.identity, f.name, f.phone, f.bankcard, f.address, f.salary, None)
  }

  /** JavaScript's rendering of an integer in a template literal. */
  function Decimal(n: int): string {
    if n < 0 then "-" + Digits(-n) else Digits(n)
  }

  function Digits(n: nat): string
    decreases n
  {
    if n < 10 then ["0123456789"[n]] else Digits(n / 10) + ["0123456789"[n % 10]]
  }

  /** The value of a string of decimal digits, read most significant first. */
  function ValueOf(s: string): int
    decreases |s|
  {
    if s == [] then 0 else ValueOf(s[..|s| - 1]) * 10 + (s[|s| - 1] as int - '0' as int)
  }

  /** The value of an optionally signed decimal numeral. */
  function SignedValueOf(s: string): int {
    if |s| > 0 && s[0] == '-' then -ValueOf(s[1..]) else ValueOf(s)
  }

  /** The rendering is canonical: only digits, no leading zero, and it reads
      back as the number. */
  lemma {:induction false} DigitsRoundTrip(n: nat)
    ensures |Digits(n)| > 0
    ensures forall i :: 0 <= i < |Digits(n)| ==> '0' <= Digits(n)[i] <= '9'
    ensures Digits(n)[0] == '0' ==> n == 0
    ensures ValueOf(Digits(n)) == n
  {
    var ds := "0123456789";
    assert forall k :: 0 <= k < 10 ==> ds[k] as int - '0' as int == k;
    if n >= 10 {
      DigitsRoundTrip(n / 10);
      var s := Digits(n);
      assert s == Digits(n / 10) + [ds[n % 10]];
      assert s[..|s| - 1] == Digits(n / 10);
      assert s[0] == Digits(n / 10)[0];
    }
  }

  /** `Decimal` is read back as the number it renders, sign included. */
  lemma DecimalRoundTrip(n: int)
    ensures SignedValueOf(Decimal(n)) == n
    ensures n >= 0 ==> forall i :: 0 <= i < |Decimal(n)| ==> '0' <= Decimal(n)[i] <= '9'
  {
    if n < 0 {
      var d := Digits(-n);
      DigitsRoundTrip(-n);
      assert Decimal(n) == "-" + d;
      assert ("-" + d)[0] == '-' && ("-" + d)[1..] == d;
    } else {
      var d := Digits(n);
      DigitsRoundTrip(n);
      assert Decimal(n) == d;
      assert '0' <= d[0] <= '9';
    }
  }

  /** `x || '无'` for a text field. */
  function OrNone(s: Option<string>): (r: string)
    ensures r != ""
    ensures Truthy(s) ==> r == s.value
    ensures !Truthy(s) ==> r == "无"
  {
    if Truthy(s) then s.value else "无"
  }

  /** The diagnostic recorded for a candidate that lacks a required field. */
  function IncompleteMessage(c: Candidate): string {
    "识别人员信息不完整, 身份证: " + OrNone(c.identity)
      + ", 名字: " + OrNone(c.name)
      + ", 电话: " + OrNone(c.phone)
      + ", 银行卡: " + OrNone(c.bankcard)
      + ", 开户行: " + OrNone(c.address)
      + ", 工资: " + (if c.salary.Some? && c.salary.value != 0 then Decimal(c.salary.value) else "无")
  }

  datatype Outcome = Accepted(user: User) | Rejected(message: string)

  /** The table after one candidate, and what the candidate contributed. */
  datatype Step = Step(table: seq<User>, outcome: Outcome)

  /** What the loop body does with one candidate; `freshId` is the uuid an
      insert would use. */
  function ReconcileStep(t: seq<User>, c: Candidate, freshId: string): (s: Step)
    ensures s.outcome.Rejected? <==> !Complete(c)
    ensures s.outcome.Rejected? ==> s.outcome.message == IncompleteMessage(c)
    ensures |s.table| <= |t| + 1
  {
    var ms := MatchesOf(t, c);
    if |ms| == 0 then
      if Complete(c) then
        var u := Record(freshId, CandidateFields(c, InsertedSalary(c)));
        Step(t + [u], Accepted(u))
      else Step(t, Rejected(IncompleteMessage(c)))
    else
      // with several matches the extra rows are deleted before the completeness test
      var kept := if |ms| > 1 then Without(t, Ids(ms[1..])) else t;
      if Complete(c) then
        var f := CandidateFields(c, MergedSalary(c, ms[0]));
        Step(SetWhereId(kept, ms[0].id, f), Accepted(Record(ms[0].id, f)))
      else Step(kept, Rejected(IncompleteMessage(c)))
  }

  // ---------------------------------------------------------------------
  // Properties of one step

  /** After the lookup's extra rows are gone, the first match is the only
      matching row, every other row is still there in order, and exactly
      |ms| - 1 rows have left. */
  lemma KeepFirstMatch(t: seq<User>, c: Candidate)
    requires ValidTable(t) && |MatchesOf(t, c)| >= 1
    ensures var ms := MatchesOf(t, c);
            var kept := if |ms| > 1 then Without(t, Ids(ms[1..])) else t;
            && ValidTable(kept)
            && MatchesOf(kept, c) == [ms[0]]
            && Unmatched(kept, c.identity, c.name) == Unmatched(t, c.identity, c.name)
            && |kept| == |t| - (|ms| - 1)
            && Ids(kept) == Ids(t) - Ids(ms[1..])
  {
    var ms := MatchesOf(t, c);
    var s := Ids(ms[1..]);
    var w := Without(t, s);
    MatchingUnique(t, c.identity, c.name);
    UniqueTail(ms);
    MatchingWithout(t, s, c.identity, c.name);
    assert Without(ms, s) == [ms[0]] by {
      assert ms == [ms[0]] + ms[1..];
      WithoutAll(ms[1..], s);
    }
    var un := Unmatched(t, c.identity, c.name);
    forall z, y | z in un && y in ms[1..] ensures z.id != y.id {
      UniqueMember(t, y, z);
    }
    assert Ids(un) !! s;
    WithoutAbsent(un, s);
    WithoutValid(t, s);
    MatchingSplits(t, c.identity, c.name);
    MatchingSplits(w, c.identity, c.name);
    if |ms| == 1 {
      assert ms[1..] == [];
      WithoutAbsent(t, s);
    }
  }

  /** Updating the only matching row with fields that still match leaves it
      the only matching row and disturbs no other row. */
  lemma {:induction false} UpdateOnlyMatch(w: seq<User>, x: User, f: Fields, identity: Option<string>, name: Option<string>)
    requires UniqueIds(w) && Matching(w, identity, name) == [x]
    requires RowMatches(Assign(x, f), identity, name)
    ensures Matching(SetWhereId(w, x.id, f), identity, name) == [Assign(x, f)]
    ensures Unmatched(SetWhereId(w, x.id, f), identity, name) == Unmatched(w, identity, name)
  {
    var r := SetWhereId(w, x.id, f);
    SetWhereIdCons(w, x.id, f);
    UniqueTail(w);
    assert r[1..] == SetWhereId(w[1..], x.id, f);
    if RowMatches(w[0], identity, name) {
      assert w[0] == x && Matching(w[1..], identity, name) == [];
      SetWhereIdAbsent(w[1..], x.id, f);
    } else {
      assert x in w[1..];
      UpdateOnlyMatch(w[1..], x, f, identity, name);
    }
  }

  /** The step keeps the table valid, and the only id it can add is `freshId`. */
  lemma ReconcileStepValid(t: seq<User>, c: Candidate, freshId: string)
    requires ValidTable(t) && freshId !in Ids(t)
    ensures ValidTable(ReconcileStep(t, c, freshId).table)
    ensures Ids(ReconcileStep(t, c, freshId).table) <= Ids(t) + {freshId}
  {
    var ms := MatchesOf(t, c);
    if |ms| == 0 {
      if Complete(c) {
        UniqueAppend(t, Record(freshId, CandidateFields(c, InsertedSalary(c))));
      }
    } else {
      KeepFirstMatch(t, c);
      var kept := if |ms| > 1 then Without(t, Ids(ms[1..])) else t;
      if Complete(c) {
        SetWhereIdValid(kept, ms[0].id, CandidateFields(c, MergedSalary(c, ms[0])));
      }
    }
  }

  /** An incomplete candidate is reported, never stored. With at most one
      match the table is untouched; with more, the extra matches are still
      deleted and the first match survives unchanged. */
  lemma ReconcileRejects(t: seq<User>, c: Candidate, freshId: string)
    requires ValidTable(t) && !Complete(c)
    ensures var s := ReconcileStep(t, c, freshId);
            var ms := MatchesOf(t, c);
            && s.outcome == Rejected(IncompleteMessage(c))
            && (|ms| <= 1 ==> s.table == t)
            && (|ms| >= 2 ==> s.table == Without(t, Ids(ms[1..])) && ms[0] in s.table
                              && |s.table| == |t| - (|ms| - 1))
  {
    if |MatchesOf(t, c)| >= 2 {
      KeepFirstMatch(t, c);
    }
  }

  /** A complete candidate without a match is appended with the fresh id; its
      salary is the candidate's unless that is absent or 0, then 4900. */
  lemma ReconcileInserts(t: seq<User>, c: Candidate, freshId: string)
    requires ValidTable(t) && freshId !in Ids(t)
    requires Complete(c) && |MatchesOf(t, c)| == 0
    ensures var s := ReconcileStep(t, c, freshId);
            && s.outcome.Accepted?
            && s.table == t + [s.outcome.user]
            && |s.table| == |t| + 1
            && s.outcome.user.id == freshId
            && s.outcome.user.identity == c.identity.value && s.outcome.user.name == c.name.value
            && s.outcome.user.phone == c.phone.value && s.outcome.user.bankcard == c.bankcard.value
            && s.outcome.user.address == c.address.value
            && s.outcome.user.salary == (if c.salary == Some(0) || c.salary == None then 4900 else c.salary.value)
  {
  }

  /** A complete candidate with matches inserts nothing: the first match keeps
      its id and takes the candidate's fields, its salary falling back to the
      stored one only when the candidate has none (so 0 is kept). */
  lemma ReconcileMerges(t: seq<User>, c: Candidate, freshId: string)
    requires ValidTable(t) && Complete(c) && |MatchesOf(t, c)| >= 1
    ensures var s := ReconcileStep(t, c, freshId);
            var ms := MatchesOf(t, c);
            && s.outcome.Accepted?
            && s.outcome.user in s.table
            && s.outcome.user.id == ms[0].id
            && s.outcome.user.identity == c.identity.value && s.outcome.user.name == c.name.value
            && s.outcome.user.phone == c.phone.value && s.outcome.user.bankcard == c.bankcard.value
            && s.outcome.user.address == c.address.value
            && s.outcome.user.salary == (if c.salary.Some? then c.salary.value else ms[0].salary)
            && |s.table| == |t| - (|ms| - 1)
            && Ids(s.table) == Ids(t) - Ids(ms[1..])
  {
    var ms := MatchesOf(t, c);
    KeepFirstMatch(t, c);
    var kept := if |ms| > 1 then Without(t, Ids(ms[1..])) else t;
    var f := CandidateFields(c, MergedSalary(c, ms[0]));
    UpdateOnlyMatch(kept, ms[0], f, c.identity, c.name);
    SetWhereIdValid(kept, ms[0].id, f);
    assert ms[0] in t;
  }

  /** After a complete candidate, the returned user is the one and only row
      whose identity or name equals the candidate's. */
  lemma ReconcileLeavesOneMatch(t: seq<User>, c: Candidate, freshId: string)
    requires ValidTable(t) && freshId !in Ids(t) && Complete(c)
    ensures var s := ReconcileStep(t, c, freshId);
            s.outcome.Accepted? && MatchesOf(s.table, c) == [s.outcome.user]
  {
    var ms := MatchesOf(t, c);
    if |ms| == 0 {
      var u := Record(freshId, CandidateFields(c, InsertedSalary(c)));
      MatchingAppend(t, [u], c.identity, c.name);
      assert [u][1..] == [];
    } else {
      KeepFirstMatch(t, c);
      var kept := if |ms| > 1 then Without(t, Ids(ms[1..])) else t;
      var f := CandidateFields(c, MergedSalary(c, ms[0]));
      UpdateOnlyMatch(kept, ms[0], f, c.identity, c.name);
      assert ms[0] in t;
    }
  }

  /** A row matching the candidate on neither identity nor name is never
      modified or deleted, and the order of such rows is kept. */
  lemma ReconcileKeepsUnmatched(t: seq<User>, c: Candidate, freshId: string)
    requires ValidTable(t)
    ensures var s := ReconcileStep(t, c, freshId);
            Unmatched(s.table, c.identity, c.name) == Unmatched(t, c.identity, c.name)
  {
    var ms := MatchesOf(t, c);
    if |ms| == 0 {
      if Complete(c) {
        var u := Record(freshId, CandidateFields(c, InsertedSalary(c)));
        MatchingAppend(t, [u], c.identity, c.name);
        assert [u][1..] == [];
      }
    } else {
      KeepFirstMatch(t, c);
      if Complete(c) {
        var kept := if |ms| > 1 then Without(t, Ids(ms[1..])) else t;
        var f := CandidateFields(c, MergedSalary(c, ms[0]));
        UpdateOnlyMatch(kept, ms[0], f, c.identity, c.name);
      }
    }
  }

  // ---------------------------------------------------------------------
  // The batch

  /** The table and the two arrays the handler fills. */
  datatype Reconciled = Reconciled(table: seq<User>, users: seq<User>, errors: seq<string>)

  /** `allUsers.push(...)` or `errorMessages.push(...)` after one step. */
  function Push(r: Reconciled, s: Step): (q: Reconciled)
    ensures q.table == s.table
    ensures s.outcome.Accepted? ==> q.users == r.users + [s.outcome.user] && q.errors == r.errors
    ensures s.outcome.Rejected? ==> q.errors == r.errors + [s.outcome.message] && q.users == r.users
  {
    match s.outcome
    case Accepted(u) => Reconciled(s.table, r.users + [u], r.errors)
    case Rejected(m) => Reconciled(s.table, r.users, r.errors + [m])
  }

  /** Candidates are processed in order, each against the table the earlier
      ones left behind. */
  function ReconcileFrom(r: Reconciled, cs: seq<Candidate>, ids: seq<string>): Reconciled
    requires |ids| == |cs|
    decreases |cs|
  {
    if cs == [] then r
    else
      var prev := ReconcileFrom(r, cs[..|cs| - 1], ids[..|ids| - 1]);
      Push(prev, ReconcileStep(prev.table, cs[|cs| - 1], ids[|ids| - 1]))
  }

  /** The uuids handed out: pairwise distinct and unused in the table. */
  predicate FreshIds(t: seq<User>, ids: seq<string>) {
    Distinct(ids) &&
    (forall i :: 0 <= i < |ids| ==> ids[i] !in Ids(t))
  }

  /** Each candidate adds exactly one user or one message, and the arrays
      only grow at the end. */
  lemma {:induction false} ReconcileCounts(r: Reconciled, cs: seq<Candidate>, ids: seq<string>)
    requires |ids| == |cs|
    ensures var q := ReconcileFrom(r, cs, ids);
            && |q.users| + |q.errors| == |r.users| + |r.errors| + |cs|
            && |r.users| <= |q.users| && |r.errors| <= |q.errors|
            && q.users[..|r.users|] == r.users && q.errors[..|r.errors|] == r.errors
  {
    if cs != [] {
      ReconcileCounts(r, cs[..|cs| - 1], ids[..|ids| - 1]);
    }
  }

  /** The batch keeps the table valid; every id it adds is one of the fresh ones. */
  lemma {:induction false} ReconcileFromValid(r: Reconciled, cs: seq<Candidate>, ids: seq<string>)
    requires |ids| == |cs| && ValidTable(r.table) && FreshIds(r.table, ids)
    ensures ValidTable(ReconcileFrom(r, cs, ids).table)
    ensures Ids(ReconcileFrom(r, cs, ids).table) <= Ids(r.table) + Elements(ids)
  {
    if cs != [] {
      var n := |cs| - 1;
      FreshPrefix(r.table, ids, n);
      ReconcileFromValid(r, cs[..n], ids[..n]);
      var prev := ReconcileFrom(r, cs[..n], ids[..n]);
      ReconcileStepValid(prev.table, cs[n], ids[n]);
      ElementsSnoc(ids, n);
    }
  }

  /** A prefix of fresh ids is fresh, and the next id is not among it. */
  lemma FreshPrefix(t: seq<User>, ids: seq<string>, n: nat)
    requires FreshIds(t, ids) && n < |ids|
    ensures FreshIds(t, ids[..n]) && ids[n] !in Elements(ids[..n]) && ids[n] !in Ids(t)
  {
  }

  /** Processing a batch and then another is processing their concatenation:
      the handler's outer loop over images keeps one table and one pair of
      arrays across all images. */
  lemma {:induction false} ReconcileFromAppend(r: Reconciled, a: seq<Candidate>, ia: seq<string>,
                                               b: seq<Candidate>, ib: seq<string>)
    requires |ia| == |a| && |ib| == |b|
    ensures ReconcileFrom(r, a + b, ia + ib) == ReconcileFrom(ReconcileFrom(r, a, ia), b, ib)
  {
    if b == [] {
      assert a + b == a && ia + ib == ia;
    } else {
      var n := |b| - 1;
      assert (a + b)[..|a + b| - 1] == a + b[..n];
      assert (ia + ib)[..|ia + ib| - 1] == ia + ib[..n];
      assert (a + b)[|a + b| - 1] == b[n];
      assert (ia + ib)[|ia + ib| - 1] == ib[n];
      ReconcileFromAppend(r, a, ia, b[..n], ib[..n]);
    }
  }

  // ---------------------------------------------------------------------
  // The handler

  /** The response body. */
  datatype UsersRes = UsersRes(errorMessages: seq<string>, users: seq<User>)

  /** The inner loop: `DELETE FROM user WHERE id = ...` for every match but the first. */
  method DeleteAllButFirst(db: Database, existing: seq<User>)
    requires db.Valid() && |existing| >= 1
    modifies db
    ensures db.Valid() && db.salaries == old(db.salaries)
    ensures db.users == Without(old(db.users), Ids(existing[1..]))
  {
    ghost var t := db.users;
    var i := 1;
    assert Ids(existing[1..i]) == {};
    WithoutAbsent(t, {});
    while i < |existing|
      invariant 1 <= i <= |existing|
      invariant db.Valid() && db.salaries == old(db.salaries)
      invariant db.users == Without(t, Ids(existing[1..i]))
    {
      assert existing[1..i + 1] == existing[1..i] + [existing[i]];
      IdsAppend(existing[1..i], existing[i]);
      WithoutWithout(t, Ids(existing[1..i]), {existing[i].id});
      db.DeleteUser(existing[i].id);
      i := i + 1;
    }
    assert existing[1..i] == existing[1..];
  }

  /** The loop body over one candidate, statement by statement. */
  method ReconcileCandidate(db: Database, c: Candidate, freshId: string) returns (o: Outcome)
    requires db.Valid() && freshId !in Ids(db.users)
    modifies db
    ensures db.Valid()
    ensures Step(db.users, o) == ReconcileStep(old(db.users), c, freshId)
    ensures db.salaries == old(db.salaries)
  {
    ghost var t := db.users;
    var existing := db.SelectUsersMatching(c.identity, c.name);
    if |existing| == 0 {
      if Complete(c) {
        var u := Record(freshId, CandidateFields(c, InsertedSalary(c)));
        db.InsertUser(u);
        o := Accepted(u);
      } else {
        o := Rejected(IncompleteMessage(c));
      }
    } else if |existing| > 1 {
      var keep := existing[0];
      DeleteAllButFirst(db, existing);
      if Complete(c) {
        var f := CandidateFields(c, MergedSalary(c, keep));
        db.UpdateUser(keep.id, f);
        o := Accepted(Record(keep.id, f));
      } else {
        o := Rejected(IncompleteMessage(c));
      }
    } else {
      var row := existing[0];
      if Complete(c) {
        var f := CandidateFields(c, MergedSalary(c, row));
        db.UpdateUser(row.id, f);
        o := Accepted(Record(row.id, f));
      } else {
        o := Rejected(IncompleteMessage(c));
      }
    }
  }

  /** `POST /api/users` once the candidates are extracted: reconcile them in
      order, then tag every returned user with its job tier. */
  method PostUsers(db: Database, candidates: seq<Candidate>, freshIds: seq<string>) returns (res: UsersRes)
    requires db.Valid()
    requires |freshIds| == |candidates| && FreshIds(db.users, freshIds)
    modifies db
    ensures db.Valid() && db.salaries == old(db.salaries)
    ensures var q := ReconcileFrom(Reconciled(old(db.users), [], []), candidates, freshIds);
            && db.users == q.table
            && res.errorMessages == q.errors
            && |res.users| == |q.users|
            && forall i :: 0 <= i < |q.users| ==> res.users[i] == WithJob(q.users[i], BaseSalary)
  {
    ghost var start := Reconciled(db.users, [], []);
    var allUsers: seq<User> := [];
    var errorMessages: seq<string> := [];
    for i := 0 to |candidates|
      invariant db.Valid() && db.salaries == old(db.salaries)
      invariant ReconcileFrom(start, candidates[..i], freshIds[..i]) == Reconciled(db.users, allUsers, errorMessages)
      invariant Ids(db.users) <= Ids(start.table) + Elements(freshIds[..i])
    {
      FreshPrefix(start.table, freshIds, i);
      ElementsSnoc(freshIds, i);
      assert candidates[..i + 1][..i] == candidates[..i];
      assert freshIds[..i + 1][..i] == freshIds[..i];
      ghost var before := db.users;
      var o := ReconcileCandidate(db, candidates[i], freshIds[i]);
      match o {
        case Accepted(u) => allUsers := allUsers + [u];
        case Rejected(m) => errorMessages := errorMessages + [m];
      }
      ReconcileStepValid(before, candidates[i], freshIds[i]);
    }
    assert candidates[..|candidates|] == candidates;
    assert freshIds[..|freshIds|] == freshIds;
    var tagged := AssignJobs(allUsers, BaseSalary);
    res := UsersRes(errorMessages, tagged);
  }
}
