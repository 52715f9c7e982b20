/** What the SQL statements of the backend do to the `user` table, which is
    modelled as the sequence of its rows in storage order (the order a
    `SELECT` returns them in). */
module Tables {
  import opened Types

  /** The primary keys present in a table. */
  function Ids(t: seq<User>): set<string> {
    set u | u in t :: u.id
  }

  /** `id` is the primary key: no two rows share it. */
  predicate UniqueIds(t: seq<User>) {
    forall i, j :: 0 <= i < j < |t| ==> t[i].id != t[j].id
  }

  /** The table has no `job` column, so a stored row never carries one. */
  predicate NoJobs(t: seq<User>) {
    forall u :: u in t ==> u.job.None?
  }

  /** The invariant the `user` table keeps. */
  predicate ValidTable(t: seq<User>) {
    UniqueIds(t) && NoJobs(t)
  }

  // ---------------------------------------------------------------------
  // DELETE FROM user WHERE id = ...

  /** The table after deleting every row whose id is in `ids`. */
  function Without(t: seq<User>, ids: set<string>): (r: seq<User>)
    ensures forall u :: u in r <==> u in t && u.id !in ids
    ensures |r| <= |t|
  {
    if t == [] then []
    else if t[0].id in ids then Without(t[1..], ids)
    else [t[0]] + Without(t[1..], ids)
  }

  /** Deleting by one set of ids and then another is deleting by their union:
      this is how a loop of single-id DELETE statements adds up. */
  lemma {:induction false} WithoutWithout(t: seq<User>, s: set<string>, s': set<string>)
    ensures Without(Without(t, s), s') == Without(t, s + s')
  {
    if t != [] {
      WithoutWithout(t[1..], s, s');
    }
  }

  /** Deleting ids that no row carries leaves the table as it is. */
  lemma {:induction false} WithoutAbsent(t: seq<User>, s: set<string>)
    requires Ids(t) !! s
    ensures Without(t, s) == t
  {
    if t != [] {
      assert t[0] in t;
      assert Ids(t[1..]) <= Ids(t) by {
        forall u | u in t[1..] ensures u in t { }
      }
      WithoutAbsent(t[1..], s);
    }
  }

  /** Deleting a set of ids that covers every row empties the table. */
  lemma {:induction false} WithoutAll(t: seq<User>, s: set<string>)
    requires Ids(t) <= s
    ensures Without(t, s) == []
  {
    if t != [] {
      assert t[0] in t;
      assert Ids(t[1..]) <= Ids(t) by {
        forall u | u in t[1..] ensures u in t { }
      }
      WithoutAll(t[1..], s);
    }
  }

  // ---------------------------------------------------------------------
  // UPDATE user SET ... WHERE id = k

  /** The table after updating the six columns of every row whose id is `k`. */
  function SetWhereId(t: seq<User>, k: string, f: Fields): seq<User> {
    seq(|t|, i requires 0 <= i < |t| => if t[i].id == k then Assign(t[i], f) else t[i])
  }

  lemma SetWhereIdCons(t: seq<User>, k: string, f: Fields)
    requires t != []
    ensures SetWhereId(t, k, f) == [SetWhereId(t, k, f)[0]] + SetWhereId(t[1..], k, f)
  {
    var r := SetWhereId(t, k, f);
    assert r == [r[0]] + r[1..];
    assert r[1..] == SetWhereId(t[1..], k, f);
  }

  /** An update changes no primary key, and keeps the table valid. */
  lemma SetWhereIdValid(t: seq<User>, k: string, f: Fields)
    ensures Ids(SetWhereId(t, k, f)) == Ids(t)
    ensures ValidTable(t) ==> ValidTable(SetWhereId(t, k, f))
  {
    var r := SetWhereId(t, k, f);
    forall x | x in Ids(r) ensures x in Ids(t) {
      var i :| 0 <= i < |r| && r[i].id == x;
      assert t[i] in t;
    }
    forall x | x in Ids(t) ensures x in Ids(r) {
      var u :| u in t && u.id == x;
      var i :| 0 <= i < |t| && t[i] == u;
      assert r[i] in r;
    }
    if ValidTable(t) {
      forall u | u in r ensures u.job.None? {
        var i :| 0 <= i < |r| && r[i] == u;
        assert t[i] in t;
      }
    }
  }

  /** An update whose key no row carries changes nothing. */
  lemma SetWhereIdAbsent(t: seq<User>, k: string, f: Fields)
    requires k !in Ids(t)
    ensures SetWhereId(t, k, f) == t
  {
    var r := SetWhereId(t, k, f);
    forall i | 0 <= i < |t| ensures r[i] == t[i] {
      assert t[i] in t;
    }
  }

  // ---------------------------------------------------------------------
  // SELECT * FROM user WHERE identity = ? OR name = ?

  /** The lookup condition. An absent parameter binds NULL, and a comparison
      with NULL never holds, so an absent identity matches on name only. */
  predicate RowMatches(u: User, identity: Option<string>, name: Option<string>) {
    identity == Some(u.identity) || name == Some(u.name)
  }

  /** The rows the lookup returns, in table order. */
  function Matching(t: seq<User>, identity: Option<string>, name: Option<string>): (r: seq<User>)
    ensures forall u :: u in r <==> u in t && RowMatches(u, identity, name)
    ensures |r| <= |t|
  {
    if t == [] then []
    else if RowMatches(t[0], identity, name) then [t[0]] + Matching(t[1..], identity, name)
    else Matching(t[1..], identity, name)
  }

  /** The rows the lookup does not return, in table order. */
  function Unmatched(t: seq<User>, identity: Option<string>, name: Option<string>): (r: seq<User>)
    ensures forall u :: u in r <==> u in t && !RowMatches(u, identity, name)
    ensures |r| <= |t|
  {
    if t == [] then []
    else if RowMatches(t[0], identity, name) then Unmatched(t[1..], identity, name)
    else [t[0]] + Unmatched(t[1..], identity, name)
  }

  /** Every row is either returned by the lookup or not. */
  lemma {:induction false} MatchingSplits(t: seq<User>, identity: Option<string>, name: Option<string>)
    ensures |Matching(t, identity, name)| + |Unmatched(t, identity, name)| == |t|
  {
    if t != [] {
      MatchingSplits(t[1..], identity, name);
    }
  }

  /** The lookup and its complement distribute over concatenation. */
  lemma MatchingAppend(a: seq<User>, b: seq<User>, identity: Option<string>, name: Option<string>)
    ensures Matching(a + b, identity, name) == Matching(a, identity, name) + Matching(b, identity, name)
    ensures Unmatched(a + b, identity, name) == Unmatched(a, identity, name) + Unmatched(b, identity, name)
  {
    MatchingAppendOnly(a, b, identity, name);
    UnmatchedAppend(a, b, identity, name);
  }

  /** Concatenation is associative. */
  lemma ConcatAssoc<T>(a: seq<T>, b: seq<T>, c: seq<T>)
    ensures a + (b + c) == (a + b) + c
  {
  }

  /** One step of the lookup on a table with a known first row. */
  lemma MatchingCons(x: User, r: seq<User>, identity: Option<string>, name: Option<string>)
    ensures Matching([x] + r, identity, name) == (if RowMatches(x, identity, name) then [x] else []) + Matching(r, identity, name)
  {
    var xr := [x] + r;
    assert xr[0] == x && xr[1..] == r;
  }

  lemma {:induction false} MatchingAppendOnly(a: seq<User>, b: seq<User>, identity: Option<string>, name: Option<string>)
    ensures Matching(a + b, identity, name) == Matching(a, identity, name) + Matching(b, identity, name)
  {
    if a == [] {
      assert a + b == b;
    } else {
      var x, r := a[0], a[1..];
      assert a == [x] + r;
      assert a + b == [x] + (r + b);
      MatchingCons(x, r, identity, name);
      MatchingCons(x, r + b, identity, name);
      MatchingAppendOnly(r, b, identity, name);
      var h := if RowMatches(x, identity, name) then [x] else [];
      ConcatAssoc(h, Matching(r, identity, name), Matching(b, identity, name));
    }
  }

  /** One step of the lookup's complement on a table with a known first row. */
  lemma UnmatchedCons(x: User, r: seq<User>, identity: Option<string>, name: Option<string>)
    ensures Unmatched([x] + r, identity, name) == (if RowMatches(x, identity, name) then [] else [x]) + Unmatched(r, identity, name)
  {
    var xr := [x] + r;
    assert xr[0] == x && xr[1..] == r;
  }

  lemma {:induction false} UnmatchedAppend(a: seq<User>, b: seq<User>, identity: Option<string>, name: Option<string>)
    ensures Unmatched(a + b, identity, name) == Unmatched(a, identity, name) + Unmatched(b, identity, name)
  {
    if a == [] {
      assert a + b == b;
    } else {
      var x, r := a[0], a[1..];
      assert a == [x] + r;
      assert a + b == [x] + (r + b);
      UnmatchedCons(x, r, identity, name);
      UnmatchedCons(x, r + b, identity, name);
      UnmatchedAppend(r, b, identity, name);
      var h := if RowMatches(x, identity, name) then [] else [x];
      ConcatAssoc(h, Unmatched(r, identity, name), Unmatched(b, identity, name));
    }
  }

  /** Deleting rows and then looking up is looking up and then deleting. */
  lemma {:induction false} MatchingWithout(t: seq<User>, s: set<string>, identity: Option<string>, name: Option<string>)
    ensures Matching(Without(t, s), identity, name) == Without(Matching(t, identity, name), s)
    ensures Unmatched(Without(t, s), identity, name) == Without(Unmatched(t, identity, name), s)
  {
    if t != [] {
      MatchingWithout(t[1..], s, identity, name);
    }
  }

  // ---------------------------------------------------------------------
  // Primary keys

  /** No id occurs twice in the list. */
  predicate Distinct(ids: seq<string>) {
    forall i, j :: 0 <= i < j < |ids| ==> ids[i] != ids[j]
  }

  /** The ids a request names, as a set. */
  function Elements(ids: seq<string>): set<string> {
    set x | x in ids
  }

  lemma ElementsSnoc(ids: seq<string>, n: nat)
    requires n < |ids|
    ensures Elements(ids[..n + 1]) == Elements(ids[..n]) + {ids[n]}
    ensures Elements(ids[..n]) <= Elements(ids)
  {
    assert ids[..n + 1] == ids[..n] + [ids[n]];
    forall x | x in ids[..n] ensures x in ids { }
  }

  lemma IdsAppend(a: seq<User>, x: User)
    ensures Ids(a + [x]) == Ids(a) + {x.id}
  {
    forall u | u in a + [x] ensures u in a || u == x { }
    assert x in a + [x];
    forall u | u in a ensures u in a + [x] { }
  }

  lemma UniqueTail(t: seq<User>)
    requires UniqueIds(t) && t != []
    ensures UniqueIds(t[1..]) && t[0].id !in Ids(t[1..])
  {
  }

  lemma UniqueCons(x: User, r: seq<User>)
    requires UniqueIds(r) && x.id !in Ids(r)
    ensures UniqueIds([x] + r)
  {
    var t := [x] + r;
    forall i, j | 0 <= i < j < |t| ensures t[i].id != t[j].id {
      if i == 0 {
        assert t[j] == r[j - 1] && r[j - 1] in r;
      } else {
        assert t[i] == r[i - 1] && t[j] == r[j - 1];
      }
    }
  }

  /** Two rows of a table with unique ids that share an id are the same row. */
  lemma UniqueMember(t: seq<User>, u: User, v: User)
    requires UniqueIds(t) && u in t && v in t
    ensures u.id == v.id ==> u == v
  {
  }

  /** Deleting rows keeps a table valid and removes no id but the deleted ones. */
  lemma {:induction false} WithoutValid(t: seq<User>, s: set<string>)
    ensures Ids(Without(t, s)) == Ids(t) - s
    ensures ValidTable(t) ==> ValidTable(Without(t, s))
  {
    if t != [] {
      WithoutValid(t[1..], s);
      assert t[0] in t;
      assert Ids(t) == {t[0].id} + Ids(t[1..]) by {
        assert t == [t[0]] + t[1..];
        forall u | u in t ensures u == t[0] || u in t[1..] { }
      }
      if ValidTable(t) {
        UniqueTail(t);
        if t[0].id !in s {
          UniqueCons(t[0], Without(t[1..], s));
        }
      }
    }
  }

  /** Looking up keeps ids unique: every returned row is a row of the table. */
  lemma {:induction false} MatchingUnique(t: seq<User>, identity: Option<string>, name: Option<string>)
    requires UniqueIds(t)
    ensures UniqueIds(Matching(t, identity, name))
  {
    if t != [] {
      UniqueTail(t);
      MatchingUnique(t[1..], identity, name);
      if RowMatches(t[0], identity, name) {
        var m := Matching(t[1..], identity, name);
        assert Ids(m) <= Ids(t[1..]) by {
          forall u | u in m ensures u in t[1..] { }
        }
        UniqueCons(t[0], m);
      }
    }
  }
}
