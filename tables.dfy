/** Queries shared by the tables of the store. */
module Tables {
  import opened Wrappers

  /** `filter(keep).order(created_at.desc()).first()`: the kept row with the
      greatest timestamp, or None when no row is kept. On equal timestamps the
      row inserted later wins, the tie-break by insertion order that "most
      recent" means. */
  function MostRecent<T>(rows: seq<T>, createdAt: T -> int, keep: T -> bool): (r: Option<T>)
    ensures r.None? <==> forall i :: 0 <= i < |rows| ==> !keep(rows[i])
    ensures r.Some? ==> r.value in rows && keep(r.value)
    ensures r.Some? ==> forall i :: 0 <= i < |rows| && keep(rows[i]) ==> createdAt(rows[i]) <= createdAt(r.value)
  {
    if rows == [] then None
    else
      var rest := MostRecent(rows[1..], createdAt, keep);
      if !keep(rows[0]) then rest
      else if rest.Some? && createdAt(rows[0]) <= createdAt(rest.value) then rest
      else Some(rows[0])
  }

  /** Timestamps strictly increase with insertion order. */
  ghost predicate Ascending<T>(rows: seq<T>, createdAt: T -> int) {
    forall i, j :: 0 <= i < j < |rows| ==> createdAt(rows[i]) < createdAt(rows[j])
  }

  /** Appending a row later than every stored one keeps the table ascending. */
  lemma AscendingAppend<T>(rows: seq<T>, row: T, createdAt: T -> int)
    requires Ascending(rows, createdAt)
    requires forall i :: 0 <= i < |rows| ==> createdAt(rows[i]) < createdAt(row)
    ensures Ascending(rows + [row], createdAt)
  {
    assert forall i :: 0 <= i < |rows| ==> (rows + [row])[i] == rows[i];
  }

  /** With strictly increasing timestamps, the most recent kept row is the
      last kept row: appending a kept row makes it the answer. */
  lemma MostRecentOfAppended<T>(rows: seq<T>, row: T, createdAt: T -> int, keep: T -> bool)
    requires Ascending(rows + [row], createdAt)
    requires keep(row)
    ensures MostRecent(rows + [row], createdAt, keep) == Some(row)
  {
    var all := rows + [row];
    var r := MostRecent(all, createdAt, keep);
    var k :| 0 <= k < |all| && all[k] == r.value;
    assert createdAt(all[|rows|]) <= createdAt(all[k]);
    assert k == |rows|;
  }
}
