/** `GET /api/users`: every stored worker, in table order, tagged with the
    job tier its salary earns. */
module UsersGet {
  import opened Types
  import opened Tables
  import opened Store
  import opened Classifier

  /** `maxSalary` is the threshold imported from `server/utils/constants`,
      which is not part of this model, so it is a parameter here. */
  method ListUsers(db: Database, maxSalary: int) returns (rows: seq<User>)
    ensures |rows| == |db.users|
    ensures forall i :: 0 <= i < |rows| ==> rows[i] == WithJob(db.users[i], maxSalary)
    ensures forall i :: 0 <= i < |rows| ==>
              (rows[i].job == Some(TemplateWorker) <==> db.users[i].salary >= maxSalary) &&
              (rows[i].job == Some(GeneralWorker) <==> db.users[i].salary < maxSalary)
  {
    var raw := db.SelectUsers();
    rows := AssignJobs(raw, maxSalary);
  }

  /** Forgetting the derived job gives back exactly what is stored: the
      listing returns what ingestion and the updates wrote. */
  lemma ListingRoundTrip(t: seq<User>, maxSalary: int, rows: seq<User>)
    requires NoJobs(t)
    requires |rows| == |t| && forall i :: 0 <= i < |t| ==> rows[i] == WithJob(t[i], maxSalary)
    ensures forall i :: 0 <= i < |t| ==> rows[i].(job := None) == t[i]
    ensures t == [] ==> rows == []
  {
    forall i | 0 <= i < |t| ensures rows[i].(job := None) == t[i] {
      assert t[i] in t;
    }
  }
}
