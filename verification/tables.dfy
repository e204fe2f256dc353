/**
 Tables of rows with unique columns, and the two store primitives the ingest code
 is built from: lookup of the first row matching a condition (`objects.get`,
 `objects.filter(...)[0]`) and insertion that skips a row colliding on any unique
 column (`bulk_create(rows, ignore_conflicts=True)`, taken one row at a time).

 A table is a sequence; a row is named by its position. `clash(a, b)` holds
 when rows `a` and `b` share a value in some unique column.
 */
module Tables {
  import opened Basics

  /** `row` collides with some row already in `t`. */
  predicate Blocked<T>(t: seq<T>, row: T, clash: (T, T) -> bool) {
    exists i :: 0 <= i < |t| && (clash(t[i], row) || clash(row, t[i]))
  }

  /** No two distinct rows of `t` collide: every unique constraint holds. */
  predicate Unique<T>(t: seq<T>, clash: (T, T) -> bool) {
    forall i, j :: 0 <= i < |t| && 0 <= j < |t| && i != j ==> !clash(t[i], t[j])
  }

  /** The position of the first row satisfying `p`. */
  function FirstIndex<T>(t: seq<T>, p: T -> bool): (r: Option<nat>)
    ensures r.Some? ==> r.value < |t| && p(t[r.value])
    ensures r.Some? ==> forall i :: 0 <= i < r.value ==> !p(t[i])
    ensures r.None? ==> forall i :: 0 <= i < |t| ==> !p(t[i])
    decreases |t|
  {
    if |t| == 0 then None
    else if p(t[0]) then Some(0)
    else
      match FirstIndex(t[1..], p)
      case None => None
      case Some(k) => Some(k + 1)
  }

  /**
   The positions, from `from` on, of the rows satisfying `p`, in table order: a
   `filter(...)` under the default ordering by primary key.
   */
  function PositionsFrom<T>(t: seq<T>, p: T -> bool, from: nat): (r: seq<nat>)
    requires from <= |t|
    ensures forall k :: k in r <==> from <= k < |t| && p(t[k])
    ensures forall a, b :: 0 <= a < b < |r| ==> r[a] < r[b]
    decreases |t| - from
  {
    if from == |t| then []
    else
      var rest := PositionsFrom(t, p, from + 1);
      assert forall b :: 0 <= b < |rest| ==> from < rest[b] by {
        forall b | 0 <= b < |rest| ensures from < rest[b] {
          assert rest[b] in rest;
        }
      }
      if p(t[from]) then [from] + rest else rest
  }

  function Positions<T>(t: seq<T>, p: T -> bool): (r: seq<nat>)
    ensures forall k :: k in r <==> 0 <= k < |t| && p(t[k])
    ensures forall a, b :: 0 <= a < b < |r| ==> r[a] < r[b]
  {
    PositionsFrom(t, p, 0)
  }

  /** A condition and its negation split the table: every row is selected by exactly one. */
  lemma {:induction false} PositionsSplit<T>(t: seq<T>, p: T -> bool, q: T -> bool, from: nat)
    requires from <= |t|
    requires forall x :: q(x) <==> !p(x)
    ensures |PositionsFrom(t, p, from)| + |PositionsFrom(t, q, from)| == |t| - from
    decreases |t| - from
  {
    if from < |t| {
      PositionsSplit(t, p, q, from + 1);
      var a, b := PositionsFrom(t, p, from + 1), PositionsFrom(t, q, from + 1);
      if p(t[from]) {
        assert PositionsFrom(t, p, from) == [from] + a;
        assert PositionsFrom(t, q, from) == b;
      } else {
        assert PositionsFrom(t, p, from) == a;
        assert PositionsFrom(t, q, from) == [from] + b;
      }
    }
  }

  /** Inserting one row: skipped exactly when it collides, appended otherwise. */
  function InsertIfAbsent<T>(t: seq<T>, row: T, clash: (T, T) -> bool): (r: seq<T>)
    ensures r == t <==> Blocked(t, row, clash)
    ensures t <= r && |r| <= |t| + 1
    ensures |r| == |t| + 1 ==> r[|t|] == row
    ensures Unique(t, clash) ==> Unique(r, clash)
  {
    if Blocked(t, row, clash) then t
    else
      assert t + [row] != t by { assert |t + [row]| != |t|; }
      t + [row]
  }

  /** A batch insert with conflicts ignored: the rows are tried in order, each against the table as it then stands. */
  function InsertAll<T>(t: seq<T>, rows: seq<T>, clash: (T, T) -> bool): (r: seq<T>)
    ensures t <= r && |r| <= |t| + |rows|
    ensures forall i :: |t| <= i < |r| ==> r[i] in rows
    ensures Unique(t, clash) ==> Unique(r, clash)
    decreases |rows|
  {
    if |rows| == 0 then t
    else
      var t1 := InsertIfAbsent(t, rows[0], clash);
      var r := InsertAll(t1, rows[1..], clash);
      assert forall i :: |t| <= i < |r| ==> r[i] in rows by {
        forall i | |t| <= i < |r| ensures r[i] in rows {
          if i >= |t1| {
            assert r[i] in rows[1..];
          } else {
            assert r[i] == t1[i] == rows[0];
          }
        }
      }
      r
  }

  /** Rows are never removed, so a collision stays a collision. */
  lemma BlockedGrows<T>(t: seq<T>, u: seq<T>, row: T, clash: (T, T) -> bool)
    requires t <= u && Blocked(t, row, clash)
    ensures Blocked(u, row, clash)
  {
    var i :| 0 <= i < |t| && (clash(t[i], row) || clash(row, t[i]));
    assert u[i] == t[i];
  }

  /** After a batch insert every row of the batch that collides with itself (has a non-null
      unique value) is represented: it was inserted or it collided with a row present. */
  lemma {:induction false} InsertAllCovers<T>(t: seq<T>, rows: seq<T>, clash: (T, T) -> bool)
    ensures forall k :: 0 <= k < |rows| && clash(rows[k], rows[k]) ==>
                          Blocked(InsertAll(t, rows, clash), rows[k], clash)
    decreases |rows|
  {
    if |rows| > 0 {
      var t1 := InsertIfAbsent(t, rows[0], clash);
      var r := InsertAll(t, rows, clash);
      InsertAllCovers(t1, rows[1..], clash);
      forall k | 0 <= k < |rows| && clash(rows[k], rows[k])
        ensures Blocked(r, rows[k], clash)
      {
        if k == 0 {
          if !Blocked(t, rows[0], clash) {
            assert t1[|t|] == rows[0];
            assert Blocked(t1, rows[0], clash);
          }
          BlockedGrows(t1, r, rows[0], clash);
        } else {
          assert rows[k] == rows[1..][k - 1];
        }
      }
    }
  }

  /** A batch whose every row already collides changes nothing. */
  lemma {:induction false} InsertAllBlocked<T>(t: seq<T>, rows: seq<T>, clash: (T, T) -> bool)
    requires forall k :: 0 <= k < |rows| ==> Blocked(t, rows[k], clash)
    ensures InsertAll(t, rows, clash) == t
    decreases |rows|
  {
    if |rows| > 0 {
      assert Blocked(t, rows[0], clash);
      assert forall k :: 0 <= k < |rows[1..]| ==> Blocked(t, rows[1..][k], clash) by {
        forall k | 0 <= k < |rows[1..]| ensures Blocked(t, rows[1..][k], clash) {
          assert rows[1..][k] == rows[k + 1];
        }
      }
      InsertAllBlocked(t, rows[1..], clash);
    }
  }

  /** Inserting the same batch twice is inserting it once. */
  lemma InsertAllIdempotent<T>(t: seq<T>, rows: seq<T>, clash: (T, T) -> bool)
    requires forall k :: 0 <= k < |rows| ==> clash(rows[k], rows[k])
    ensures InsertAll(InsertAll(t, rows, clash), rows, clash) == InsertAll(t, rows, clash)
  {
    InsertAllCovers(t, rows, clash);
    InsertAllBlocked(InsertAll(t, rows, clash), rows, clash);
  }
}
