/** The wage classifier: the job tier derived from a salary, and the loop that
    writes it into every user a handler returns. */
module Classifier {
  import opened Types

  const TemplateWorker: string := "模板工"
  const GeneralWorker: string := "普工"

  /** A salary at or above the threshold marks a template worker; anything
      below it a general worker. */
  function JobTier(salary: int, threshold: int): (tier: string)
    ensures tier == TemplateWorker <==> salary >= threshold
    ensures tier == GeneralWorker <==> salary < threshold
  {
    if salary >= threshold then TemplateWorker else GeneralWorker
  }

  /** The user with its job tier attached and every other field as it was. */
  function WithJob(u: User, threshold: int): User {
    u.(job := Some(JobTier(u.salary, threshold)))
  }

  /** `for (...) { user.job = salary >= threshold ? '模板工' : '普工' }`:
      the same users, in the same order, each tagged with its tier. */
  method AssignJobs(users: seq<User>, threshold: int) returns (tagged: seq<User>)
    ensures |tagged| == |users|
    ensures forall i :: 0 <= i < |users| ==> tagged[i] == WithJob(users[i], threshold)
    ensures forall i :: 0 <= i < |users| ==>
              (tagged[i].job == Some(TemplateWorker) <==> users[i].salary >= threshold)
  {
    tagged := users;
    for i := 0 to |users|
      invariant |tagged| == |users|
      invariant forall j :: 0 <= j < i ==> tagged[j] == WithJob(users[j], threshold)
      invariant forall j :: i <= j < |users| ==> tagged[j] == users[j]
    {
      var job := JobTier(tagged[i].salary, threshold);
      tagged := tagged[i := tagged[i].(job := Some(job))];
    }
  }
}
