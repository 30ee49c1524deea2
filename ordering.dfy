/**
 * ORDER BY: the comparator the engine hands to `Array.prototype.sort`, and
 * the stable sort it is used with.
 */
module Ordering {
  import opened Wrappers
  import opened JsValues

  /** One ORDER BY key: a field and its direction, "ASC" or anything else for descending. */
  datatype OrderField = OrderField(fieldName: string, order: string)

  /**
   * The comparator: the first key on which `a[f] < b[f]` or `a[f] > b[f]`
   * decides, -1 or 1 by direction; 0 when no key decides.
   */
  function OrderCompare(a: Row, b: Row, keys: seq<OrderField>): (c: int)
    ensures -1 <= c <= 1
    ensures keys == [] ==> c == 0
  {
    if keys == [] then 0
    else
      var f := keys[0].fieldName;
      var asc := keys[0].order == "ASC";
      if LessThan(Get(a, f), Get(b, f)) then (if asc then -1 else 1)
      else if LessThan(Get(b, f), Get(a, f)) then (if asc then 1 else -1)
      else OrderCompare(a, b, keys[1..])
  }

  /** Swapping the rows flips the comparator's sign, whatever the values. */
  lemma {:induction false} OrderCompareAntisymmetric(a: Row, b: Row, keys: seq<OrderField>)
    ensures OrderCompare(b, a, keys) == -OrderCompare(a, b, keys)
  {
    if keys != [] {
      var f := keys[0].fieldName;
      LessThanAsymmetric(Get(a, f), Get(b, f));
      OrderCompareAntisymmetric(a, b, keys[1..]);
    }
  }

  /** Insertion of `x` into `sorted`: after every row that does not compare above it, so equal rows keep their order. */
  function Insert(sorted: seq<Row>, x: Row, keys: seq<OrderField>): (r: seq<Row>)
    ensures |r| == |sorted| + 1
    ensures r[|r| - 1] == x || (sorted != [] && r[|r| - 1] == sorted[|sorted| - 1])
  {
    if sorted == [] || OrderCompare(sorted[|sorted| - 1], x, keys) <= 0 then sorted + [x]
    else Insert(sorted[..|sorted| - 1], x, keys) + [sorted[|sorted| - 1]]
  }

  /** `rows.sort(comparator)`, as a stable sort. */
  function SortRows(rows: seq<Row>, keys: seq<OrderField>): (r: seq<Row>)
    ensures |r| == |rows|
  {
    if rows == [] then [] else Insert(SortRows(rows[..|rows| - 1], keys), rows[|rows| - 1], keys)
  }

  /** No neighbouring pair is out of order. */
  predicate InOrder(rows: seq<Row>, keys: seq<OrderField>) {
    forall i :: 0 <= i < |rows| - 1 ==> OrderCompare(rows[i], rows[i + 1], keys) <= 0
  }

  /** The rows of ORDER BY, when given, in comparator order. */
  function Ordered(rows: seq<Row>, keys: Option<seq<OrderField>>): seq<Row> {
    match keys
    case None => rows
    case Some(ks) => SortRows(rows, ks)
  }

  // ---- Properties ----

  lemma {:induction false} InsertPermutes(sorted: seq<Row>, x: Row, keys: seq<OrderField>)
    ensures multiset(Insert(sorted, x, keys)) == multiset(sorted) + multiset{x}
  {
    if !(sorted == [] || OrderCompare(sorted[|sorted| - 1], x, keys) <= 0) {
      var pre := sorted[..|sorted| - 1];
      InsertPermutes(pre, x, keys);
      assert sorted == pre + [sorted[|sorted| - 1]];
    }
  }

  /** Sorting rearranges the rows: the same rows, each as often. */
  lemma {:induction false} SortPermutes(rows: seq<Row>, keys: seq<OrderField>)
    ensures multiset(SortRows(rows, keys)) == multiset(rows)
  {
    if rows != [] {
      var pre := rows[..|rows| - 1];
      SortPermutes(pre, keys);
      InsertPermutes(SortRows(pre, keys), rows[|rows| - 1], keys);
      assert rows == pre + [rows[|rows| - 1]];
    }
  }

  lemma {:induction false} InsertInOrder(sorted: seq<Row>, x: Row, keys: seq<OrderField>)
    requires InOrder(sorted, keys)
    ensures InOrder(Insert(sorted, x, keys), keys)
  {
    if sorted == [] || OrderCompare(sorted[|sorted| - 1], x, keys) <= 0 {
      InOrderAppend(sorted, x, keys);
    } else {
      var pre := sorted[..|sorted| - 1];
      var last := sorted[|sorted| - 1];
      var r := Insert(pre, x, keys);
      assert InOrder(pre, keys) by {
        forall i | 0 <= i < |pre| - 1 ensures OrderCompare(pre[i], pre[i + 1], keys) <= 0 {
          assert pre[i] == sorted[i] && pre[i + 1] == sorted[i + 1];
        }
      }
      InsertInOrder(pre, x, keys);
      assert OrderCompare(r[|r| - 1], last, keys) <= 0 by {
        OrderCompareAntisymmetric(last, x, keys);
        if r[|r| - 1] != x {
          assert OrderCompare(sorted[|sorted| - 2], sorted[|sorted| - 1], keys) <= 0;
        }
      }
      InOrderAppend(r, last, keys);
      assert Insert(sorted, x, keys) == r + [last];
    }
  }

  /** A row that compares at or above the last row of an ordered run extends it. */
  lemma InOrderAppend(rows: seq<Row>, x: Row, keys: seq<OrderField>)
    requires InOrder(rows, keys)
    requires rows == [] || OrderCompare(rows[|rows| - 1], x, keys) <= 0
    ensures InOrder(rows + [x], keys)
  {
    var r := rows + [x];
    forall i | 0 <= i < |r| - 1 ensures OrderCompare(r[i], r[i + 1], keys) <= 0 {
      if i < |rows| - 1 {
        assert r[i] == rows[i] && r[i + 1] == rows[i + 1];
      }
    }
  }

  /** After sorting, every row compares at or below the next one. */
  lemma {:induction false} SortInOrder(rows: seq<Row>, keys: seq<OrderField>)
    ensures InOrder(SortRows(rows, keys), keys)
  {
    if rows != [] {
      SortInOrder(rows[..|rows| - 1], keys);
      InsertInOrder(SortRows(rows[..|rows| - 1], keys), rows[|rows| - 1], keys);
    }
  }

  /** Rows already in order are left as they are; in particular, so is everything when no key decides. */
  lemma {:induction false} SortKeepsOrderedRows(rows: seq<Row>, keys: seq<OrderField>)
    requires InOrder(rows, keys)
    ensures SortRows(rows, keys) == rows
  {
    if rows != [] {
      var pre, last := rows[..|rows| - 1], rows[|rows| - 1];
      assert rows == pre + [last];
      assert InOrder(pre, keys) by {
        forall i | 0 <= i < |pre| - 1 ensures OrderCompare(pre[i], pre[i + 1], keys) <= 0 {
          assert pre[i] == rows[i] && pre[i + 1] == rows[i + 1];
        }
      }
      SortKeepsOrderedRows(pre, keys);
      assert pre == [] || OrderCompare(pre[|pre| - 1], last, keys) <= 0 by {
        if pre != [] {
          assert OrderCompare(rows[|rows| - 2], rows[|rows| - 1], keys) <= 0;
        }
      }
      assert SortRows(rows, keys) == Insert(pre, last, keys);
    }
  }

  /** Every occurrence of `x` in `s` comes before every occurrence of `y`. */
  predicate Before(s: seq<Row>, x: Row, y: Row) {
    forall i, j :: 0 <= i < |s| && 0 <= j < |s| && s[i] == x && s[j] == y ==> i < j
  }

  /**
   * The sort is stable: when every `x` precedes every `y` in the input and
   * `x` does not compare above `y` (in particular when they tie), every `x`
   * still precedes every `y` in the output.
   */
  lemma {:induction false} SortStable(rows: seq<Row>, keys: seq<OrderField>, x: Row, y: Row)
    requires x != y && Before(rows, x, y) && OrderCompare(x, y, keys) <= 0
    ensures Before(SortRows(rows, keys), x, y)
  {
    if rows != [] {
      var pre, last := rows[..|rows| - 1], rows[|rows| - 1];
      assert rows == pre + [last];
      PrefixBefore(rows, x, y);
      if last == x {
        LastBeforeAbsent(rows, x, y);
        SortPermutes(rows, keys);
        assert y !in SortRows(rows, keys) by {
          assert y !in multiset(rows);
        }
      } else {
        SortStable(pre, keys, x, y);
        if last == y {
          InsertLaterBefore(SortRows(pre, keys), x, y, keys);
        } else {
          InsertOtherBefore(SortRows(pre, keys), last, x, y, keys);
        }
      }
    }
  }

  /** Dropping the last row keeps `x` before `y`. */
  lemma PrefixBefore(s: seq<Row>, x: Row, y: Row)
    requires s != [] && Before(s, x, y)
    ensures Before(s[..|s| - 1], x, y)
  {
    var p := s[..|s| - 1];
    forall i, j | 0 <= i < |p| && 0 <= j < |p| && p[i] == x && p[j] == y ensures i < j {
      assert s[i] == x && s[j] == y;
    }
  }

  /** When the last row is an `x`, no `y` can follow an `x`, so there is no `y`. */
  lemma LastBeforeAbsent(s: seq<Row>, x: Row, y: Row)
    requires s != [] && s[|s| - 1] == x && Before(s, x, y)
    ensures y !in s
  {
    forall j | 0 <= j < |s| ensures s[j] != y {
      assert s[|s| - 1] == x;
    }
  }

  /** Appending a row keeps `x` before `y`, unless it is an `x` and a `y` is already there. */
  lemma AppendBefore(s: seq<Row>, w: Row, x: Row, y: Row)
    requires x != y && Before(s, x, y) && (w == x ==> y !in s)
    ensures Before(s + [w], x, y)
  {
    var t := s + [w];
    forall i, j | 0 <= i < |t| && 0 <= j < |t| && t[i] == x && t[j] == y ensures i < j {
      if j < |s| {
        assert s[j] == y;
        if i < |s| {
          assert s[i] == x;
        }
      }
    }
  }

  /** Inserting a row that is neither `x` nor `y` keeps `x` before `y`. */
  lemma {:induction false} InsertOtherBefore(s: seq<Row>, z: Row, x: Row, y: Row, keys: seq<OrderField>)
    requires z != x && z != y && x != y && Before(s, x, y)
    ensures Before(Insert(s, z, keys), x, y)
  {
    if s == [] || OrderCompare(s[|s| - 1], z, keys) <= 0 {
      AppendBefore(s, z, x, y);
    } else {
      var pre, last := s[..|s| - 1], s[|s| - 1];
      var t := Insert(pre, z, keys);
      PrefixBefore(s, x, y);
      InsertOtherBefore(pre, z, x, y, keys);
      if last == x {
        LastBeforeAbsent(s, x, y);
        assert y !in t by {
          InsertPermutes(pre, z, keys);
          assert s == pre + [last];
          assert y !in multiset(pre) + multiset{z};
        }
      }
      AppendBefore(t, last, x, y);
    }
  }

  /**
   * Inserting a `y` keeps `x` before `y` when `x` does not compare above `y`:
   * the new row never moves in front of an `x`.
   */
  lemma {:induction false} InsertLaterBefore(s: seq<Row>, x: Row, y: Row, keys: seq<OrderField>)
    requires x != y && Before(s, x, y) && OrderCompare(x, y, keys) <= 0
    ensures Before(Insert(s, y, keys), x, y)
  {
    if s == [] || OrderCompare(s[|s| - 1], y, keys) <= 0 {
      AppendBefore(s, y, x, y);
    } else {
      var pre, last := s[..|s| - 1], s[|s| - 1];
      PrefixBefore(s, x, y);
      InsertLaterBefore(pre, x, y, keys);
      AppendBefore(Insert(pre, y, keys), last, x, y);
    }
  }
}
