/**
 * The two table queries the service issues through its ORM, over a table
 * modelled as the sequence of its rows in insertion order:
 *   - `findOne({ where })`, the first row the condition selects, and
 *   - `destroy({ where })`, which deletes every row the condition selects.
 */
module Query {
  import opened Wrappers

  /** `findOne`: the index of the first row satisfying `where`, or None when no row does. */
  function FindOne<T>(rows: seq<T>, where: T -> bool): (r: Option<nat>)
    ensures r.Some? ==> r.value < |rows| && where(rows[r.value])
    ensures r.Some? ==> forall j :: 0 <= j < r.value ==> !where(rows[j])
    ensures r.None? <==> forall j :: 0 <= j < |rows| ==> !where(rows[j])
  {
    if rows == [] then None
    else if where(rows[0]) then Some(0)
    else match FindOne(rows[1..], where)
      case Some(i) => Some(i + 1)
      case None => None
  }

  /** `destroy`: the rows left after deleting every row satisfying `where`. */
  function DestroyWhere<T>(rows: seq<T>, where: T -> bool): (r: seq<T>)
    ensures forall j :: 0 <= j < |r| ==> r[j] in rows && !where(r[j])
    ensures forall i :: 0 <= i < |rows| && !where(rows[i]) ==> rows[i] in r
    ensures |r| <= |rows|
  {
    if rows == [] then []
    else if where(rows[0]) then DestroyWhere(rows[1..], where)
    else [rows[0]] + DestroyWhere(rows[1..], where)
  }

  /** Appending a row that matches after rows that do not makes the new row the one found. */
  lemma {:induction false} FindOneAppended<T>(rows: seq<T>, x: T, where: T -> bool)
    requires forall j :: 0 <= j < |rows| ==> !where(rows[j])
    requires where(x)
    ensures FindOne(rows + [x], where) == Some(|rows|)
  {
    if rows != [] {
      assert (rows + [x])[1..] == rows[1..] + [x];
      FindOneAppended(rows[1..], x, where);
    }
  }

  /** Deletion keeps the surviving rows in their order: it distributes over concatenation. */
  lemma {:induction false} DestroyWhereConcat<T>(a: seq<T>, b: seq<T>, where: T -> bool)
    ensures DestroyWhere(a + b, where) == DestroyWhere(a, where) + DestroyWhere(b, where)
  {
    if a == [] {
      assert a + b == b;
    } else {
      assert (a + b)[1..] == a[1..] + b;
      DestroyWhereConcat(a[1..], b, where);
    }
  }

  /** Deleting where nothing matches leaves the table as it was. */
  lemma {:induction false} DestroyWhereNoMatch<T>(rows: seq<T>, where: T -> bool)
    requires forall j :: 0 <= j < |rows| ==> !where(rows[j])
    ensures DestroyWhere(rows, where) == rows
  {
    if rows != [] {
      DestroyWhereNoMatch(rows[1..], where);
    }
  }

  /** Deleting twice with the same condition deletes nothing more. */
  lemma DestroyWhereIdempotent<T>(rows: seq<T>, where: T -> bool)
    ensures DestroyWhere(DestroyWhere(rows, where), where) == DestroyWhere(rows, where)
  {
  }

  /** After deleting where `where` holds, `findOne` with the same condition finds nothing. */
  lemma FindOneAfterDestroy<T>(rows: seq<T>, where: T -> bool)
    ensures FindOne(DestroyWhere(rows, where), where).None?
  {
  }
}
