/** `GET /api/sheet`: the snapshot rows of the most recent sheet. Both
    queries only read, so neither table changes. */
module SheetGet {
  import opened Types

  /** `SELECT MAX(sheet_date) FROM salary`: NULL (here `None`) on an empty table. */
  function MaxSheetDate(rows: seq<Salary>): (m: Option<int>)
    ensures m.None? <==> rows == []
    ensures m.Some? ==> (exists r :: r in rows && r.sheetDate == m.value)
    ensures m.Some? ==> forall r :: r in rows ==> r.sheetDate <= m.value
  {
    if rows == [] then None
    else
      var rest := MaxSheetDate(rows[1..]);
      if rest.None? || rows[0].sheetDate >= rest.value then Some(rows[0].sheetDate) else rest
  }

  /** `SELECT * FROM salary WHERE sheet_date = d`, in table order; comparing
      with NULL never holds. */
  function RowsOn(rows: seq<Salary>, d: Option<int>): (r: seq<Salary>)
    ensures forall x :: x in r <==> x in rows && d == Some(x.sheetDate)
  {
    if rows == [] then []
    else if d == Some(rows[0].sheetDate) then [rows[0]] + RowsOn(rows[1..], d)
    else RowsOn(rows[1..], d)
  }

  /** The handler. MAX always yields one row, whose value is NULL on an empty
      table rather than undefined, so the early `return []` is never taken;
      the second query with NULL returns no rows instead. */
  function LatestSheet(rows: seq<Salary>): seq<Salary> {
    RowsOn(rows, MaxSheetDate(rows))
  }

  /** The result is exactly the latest sheet: every row it holds carries the
      largest sheet date, every row carrying it is returned, and an empty
      table gives an empty result while a non-empty one never does. */
  lemma LatestSheetIsExact(rows: seq<Salary>)
    ensures rows == [] <==> LatestSheet(rows) == []
    ensures forall x :: x in LatestSheet(rows) ==> x.sheetDate == MaxSheetDate(rows).value
    ensures forall x :: x in LatestSheet(rows) <==>
              x in rows && forall y :: y in rows ==> y.sheetDate <= x.sheetDate
  {
    if rows != [] {
      var m := MaxSheetDate(rows).value;
      var w :| w in rows && w.sheetDate == m;
      assert w in LatestSheet(rows);
      forall x | x in rows && (forall y :: y in rows ==> y.sheetDate <= x.sheetDate)
        ensures x in LatestSheet(rows)
      {
        assert w.sheetDate <= x.sheetDate;
      }
    }
  }
}
