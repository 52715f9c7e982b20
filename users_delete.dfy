/** `DELETE /api/users`: remove the rows named by an id list, one DELETE
    statement per id. */
module UsersDelete {
  import opened Types
  import opened Tables
  import opened Store

  const DeletedMessage: string := "删除成功."
  const NoIdsMessage: string := "Bad Request: No user IDs provided for deletion."

  /** The request's `ids`: absent or not an array is `None`. */
  type IdsField = Option<seq<string>>

  /** The table once every id of the request has been deleted. */
  function AfterDelete(t: seq<User>, ids: seq<string>): seq<User> {
    Without(t, Elements(ids))
  }

  /** The handler. The 400 for a missing or empty id list is raised inside
      the `try`, so the `catch` turns it into a 500 carrying its message. */
  method DeleteUsers(db: Database, ids: IdsField) returns (r: Result<string>)
    requires db.Valid()
    modifies db
    ensures db.Valid() && db.salaries == old(db.salaries)
    ensures (ids.None? || |ids.value| == 0) ==>
              r == Failure(HttpError(500, NoIdsMessage)) && db.users == old(db.users)
    ensures (ids.Some? && |ids.value| > 0) ==>
              r == Success(DeletedMessage) && db.users == AfterDelete(old(db.users), ids.value)
  {
    if ids.None? || |ids.value| == 0 {
      return Failure(HttpError(500, NoIdsMessage));
    }
    var list := ids.value;
    ghost var t := db.users;
    WithoutAbsent(t, {});
    assert Elements(list[..0]) == {};
    for i := 0 to |list|
      invariant db.Valid() && db.salaries == old(db.salaries)
      invariant db.users == Without(t, Elements(list[..i]))
    {
      ElementsSnoc(list, i);
      WithoutWithout(t, Elements(list[..i]), {list[i]});
      db.DeleteUser(list[i]);
    }
    assert list[..|list|] == list;
    r := Success(DeletedMessage);
  }

  /** No remaining row carries a deleted id, every row whose id was not
      named is still there, and ids that no row carries play no part. */
  lemma DeleteRemovesExactly(t: seq<User>, ids: seq<string>)
    ensures forall u :: u in AfterDelete(t, ids) ==> u.id !in ids
    ensures forall u :: u in t && u.id !in ids ==> u in AfterDelete(t, ids)
    ensures Ids(AfterDelete(t, ids)) == Ids(t) - Elements(ids)
    ensures AfterDelete(t, ids) == Without(t, Elements(ids) * Ids(t))
  {
    WithoutValid(t, Elements(ids));
    var known := Elements(ids) * Ids(t);
    WithoutWithout(t, known, Elements(ids) - known);
    assert known + (Elements(ids) - known) == Elements(ids);
    WithoutValid(t, known);
    WithoutAbsent(Without(t, known), Elements(ids) - known);
  }

  /** Deleting twice is deleting once; ids that are repeated or match no row
      change nothing. */
  lemma DeleteIdempotent(t: seq<User>, ids: seq<string>, extra: seq<string>)
    requires forall x :: x in extra ==> x in ids || x !in Ids(t)
    ensures AfterDelete(AfterDelete(t, ids), ids) == AfterDelete(t, ids)
    ensures AfterDelete(t, ids + extra) == AfterDelete(t, ids)
  {
    WithoutWithout(t, Elements(ids), Elements(ids));
    assert Elements(ids) + Elements(ids) == Elements(ids);
    var e := Elements(extra) - Elements(ids);
    assert Elements(ids + extra) == Elements(ids) + e;
    WithoutWithout(t, Elements(ids), e);
    WithoutValid(t, Elements(ids));
    WithoutAbsent(Without(t, Elements(ids)), e);
  }
}
