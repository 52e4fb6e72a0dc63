/** What a `SELECT ... WHERE ... ORDER BY created` query returns from a table
    kept in insertion order: the rows that satisfy the WHERE clause, in table
    order, each as often as it occurs. */
module Query {
  import opened Wrappers

  /** The rows of `rows` satisfying `p`, in order and with multiplicity. */
  function Filter<T>(rows: seq<T>, p: T -> bool): (r: seq<T>)
    ensures |r| <= |rows|
  {
    if rows == [] then []
    else
      var kept := Filter(rows[..|rows| - 1], p);
      if p(rows[|rows| - 1]) then kept + [rows[|rows| - 1]] else kept
  }

  /** The first row satisfying `p`: what `fetch_one` returns for a WHERE
      clause (on a key column there is at most one such row). */
  function First<T>(rows: seq<T>, p: T -> bool): (r: Option<T>)
    ensures r.Some? ==> p(r.value) && exists i :: 0 <= i < |rows| && rows[i] == r.value
    ensures r.None? <==> forall i :: 0 <= i < |rows| ==> !p(rows[i])
  {
    if rows == [] then None
    else if p(rows[0]) then Some(rows[0])
    else
      var r := First(rows[1..], p);
      assert forall i :: 1 <= i < |rows| ==> rows[i] == rows[1..][i - 1];
      r
  }

  /** A row appended after rows that all fail the clause is the one found. */
  lemma {:induction false} FirstOfAppended<T>(rows: seq<T>, x: T, p: T -> bool)
    requires forall i :: 0 <= i < |rows| ==> !p(rows[i])
    requires p(x)
    ensures First(rows + [x], p) == Some(x)
  {
    if rows != [] {
      FirstOfAppended(rows[1..], x, p);
      assert (rows + [x])[1..] == rows[1..] + [x];
    }
  }

  /** `key` grows strictly along `rows`. */
  predicate IncreasingBy<T>(rows: seq<T>, key: T -> int) {
    forall i, j :: 0 <= i < j < |rows| ==> key(rows[i]) < key(rows[j])
  }

  /** A row is selected exactly when it is in the table and satisfies the clause. */
  lemma {:induction false} FilterSelects<T>(rows: seq<T>, p: T -> bool, x: T)
    ensures x in Filter(rows, p) <==> x in rows && p(x)
  {
    if rows != [] {
      var init := rows[..|rows| - 1];
      FilterSelects(init, p, x);
      assert rows == init + [rows[|rows| - 1]];
    }
  }

  /** Every selected row satisfies the clause. */
  lemma {:induction false} FilterSatisfies<T>(rows: seq<T>, p: T -> bool)
    ensures forall i :: 0 <= i < |Filter(rows, p)| ==> p(Filter(rows, p)[i])
  {
    if rows != [] {
      FilterSatisfies(rows[..|rows| - 1], p);
    }
  }

  /** Selecting keeps the table order: a strictly increasing key stays strictly
      increasing, and every selected key is one of the table's keys. */
  lemma {:induction false} FilterKeepsOrder<T>(rows: seq<T>, p: T -> bool, key: T -> int)
    requires IncreasingBy(rows, key)
    ensures IncreasingBy(Filter(rows, p), key)
    ensures forall i :: 0 <= i < |Filter(rows, p)| ==>
              exists j :: 0 <= j < |rows| && key(rows[j]) == key(Filter(rows, p)[i])
  {
    if rows != [] {
      var init := rows[..|rows| - 1];
      var last := rows[|rows| - 1];
      assert IncreasingBy(init, key);
      FilterKeepsOrder(init, p, key);
      var kept := Filter(init, p);
      forall i | 0 <= i < |kept|
        ensures key(kept[i]) < key(last)
      {
        var j :| 0 <= j < |init| && key(init[j]) == key(kept[i]);
        assert init[j] == rows[j];
      }
      forall i | 0 <= i < |Filter(rows, p)|
        ensures exists j :: 0 <= j < |rows| && key(rows[j]) == key(Filter(rows, p)[i])
      {
        if i < |kept| {
          var j :| 0 <= j < |init| && key(init[j]) == key(kept[i]);
          assert rows[j] == init[j];
        } else {
          assert Filter(rows, p)[i] == rows[|rows| - 1];
        }
      }
    }
  }

  /** If no row satisfies the clause, nothing is selected. */
  lemma {:induction false} FilterNone<T>(rows: seq<T>, p: T -> bool)
    requires forall i :: 0 <= i < |rows| ==> !p(rows[i])
    ensures Filter(rows, p) == []
  {
    if rows != [] {
      var init := rows[..|rows| - 1];
      assert forall i :: 0 <= i < |init| ==> init[i] == rows[i];
      FilterNone(init, p);
      assert !p(rows[|rows| - 1]);
    }
  }

  /** If every row satisfies the clause, the whole table is selected. */
  lemma {:induction false} FilterAll<T>(rows: seq<T>, p: T -> bool)
    requires forall i :: 0 <= i < |rows| ==> p(rows[i])
    ensures Filter(rows, p) == rows
  {
    if rows != [] {
      var init := rows[..|rows| - 1];
      assert forall i :: 0 <= i < |init| ==> init[i] == rows[i];
      FilterAll(init, p);
      assert p(rows[|rows| - 1]);
      assert rows == init + [rows[|rows| - 1]];
    }
  }
}
