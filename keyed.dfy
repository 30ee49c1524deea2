/**
 * Rows identified by a text key made of some of their fields, as the engine
 * builds them with `fields.map((field) => row[field]).join(sep)`: `-` for
 * GROUP BY, `|` for DISTINCT and COUNT(DISTINCT ...).
 */
module Keyed {
  import opened JsText
  import opened JsValues
  import opened Seqs

  /** The texts joined into a row's key, one per field. */
  function KeyParts(row: Row, fields: seq<string>): (r: seq<string>)
    ensures |r| == |fields| && forall i :: 0 <= i < |fields| ==> r[i] == JoinText(Get(row, fields[i]))
  {
    seq(|fields|, i requires 0 <= i < |fields| => JoinText(Get(row, fields[i])))
  }

  function RowKey(row: Row, fields: seq<string>, sep: string): string {
    Join(KeyParts(row, fields), sep)
  }

  /** The key of every row, in table order. */
  function KeysOf(rows: seq<Row>, fields: seq<string>, sep: string): (r: seq<string>)
    ensures |r| == |rows| && forall i :: 0 <= i < |rows| ==> r[i] == RowKey(rows[i], fields, sep)
  {
    seq(|rows|, i requires 0 <= i < |rows| => RowKey(rows[i], fields, sep))
  }

  /** The rows whose key is `k`, in table order, each as often as it occurs in the table. */
  function Members(rows: seq<Row>, fields: seq<string>, sep: string, k: string): (r: seq<Row>)
    ensures IsSubsequence(r, rows)
    ensures forall x :: x in r <==> x in rows && RowKey(x, fields, sep) == k
    ensures |r| > 0 <==> k in KeysOf(rows, fields, sep)
  {
    if rows == [] then []
    else
      var pre := rows[..|rows| - 1];
      var last := rows[|rows| - 1];
      assert rows == pre + [last];
      var m := Members(pre, fields, sep, k);
      assert forall x :: x in rows <==> x in pre || x == last;
      assert KeysOf(rows, fields, sep) == KeysOf(pre, fields, sep) + [RowKey(last, fields, sep)];
      MembersExtend(m, pre, last, RowKey(last, fields, sep) == k);
      if RowKey(last, fields, sep) == k then m + [last] else m
  }

  /** A group holds each row with its key as often as the table does. */
  lemma {:induction false} MembersOccurrences(rows: seq<Row>, fields: seq<string>, sep: string, k: string)
    ensures forall x ::
      multiset(Members(rows, fields, sep, k))[x] == if RowKey(x, fields, sep) == k then multiset(rows)[x] else 0
  {
    if rows != [] {
      var pre := rows[..|rows| - 1];
      var last := rows[|rows| - 1];
      var m := Members(pre, fields, sep, k);
      MembersOccurrences(pre, fields, sep, k);
      assert rows == pre + [last];
      assert multiset(rows) == multiset(pre) + multiset{last};
      assert multiset(m + [last]) == multiset(m) + multiset{last};
      assert Members(rows, fields, sep, k) == if RowKey(last, fields, sep) == k then m + [last] else m;
    }
  }

  /** Extending a table at the end keeps every subsequence of it, and allows the new row to be added. */
  lemma {:induction false} MembersExtend(m: seq<Row>, pre: seq<Row>, last: Row, take: bool)
    requires IsSubsequence(m, pre)
    ensures IsSubsequence(if take then m + [last] else m, pre + [last])
    decreases |pre|
  {
    if m == [] {
      if take {
        assert m + [last] == [last];
        AppendedSingle(pre, last);
      }
    } else {
      assert pre != [];
      assert (pre + [last])[1..] == pre[1..] + [last];
      var m2 := if take then m + [last] else m;
      if m[0] == pre[0] {
        MembersExtend(m[1..], pre[1..], last, take);
        assert m2[1..] == (if take then m[1..] + [last] else m[1..]);
      } else {
        MembersExtend(m, pre[1..], last, take);
      }
    }
  }

  lemma {:induction false} AppendedSingle(pre: seq<Row>, last: Row)
    ensures IsSubsequence([last], pre + [last])
    decreases |pre|
  {
    if pre == [] {
      assert [last][1..] == [];
      assert (pre + [last])[1..] == [];
    } else {
      assert (pre + [last])[1..] == pre[1..] + [last];
      AppendedSingle(pre[1..], last);
    }
  }

  /** Adding a row at the end adds it to its own key's members and to no other. */
  lemma MembersStep(rows: seq<Row>, row: Row, fields: seq<string>, sep: string, k: string)
    ensures Members(rows + [row], fields, sep, k) ==
      Members(rows, fields, sep, k) + (if RowKey(row, fields, sep) == k then [row] else [])
  {
    assert (rows + [row])[..|rows|] == rows;
  }

  /** The distinct keys, in order of first appearance. */
  function DistinctKeys(rows: seq<Row>, fields: seq<string>, sep: string): (r: seq<string>)
    ensures NoDuplicates(r)
    ensures forall k :: k in r <==> k in KeysOf(rows, fields, sep)
  {
    FirstAppearances(KeysOf(rows, fields, sep))
  }

  /** The last row with key `k`: the value an insertion-ordered Map keeps for `k`. */
  function LastWithKey(rows: seq<Row>, fields: seq<string>, sep: string, k: string): (r: Row)
    requires k in KeysOf(rows, fields, sep)
    ensures r in rows && RowKey(r, fields, sep) == k
  {
    var m := Members(rows, fields, sep, k);
    assert m[|m| - 1] in m;
    m[|m| - 1]
  }

  /** The distinct keys grow by the new row's key exactly when that key is new. */
  lemma DistinctKeysStep(rows: seq<Row>, row: Row, fields: seq<string>, sep: string)
    ensures var key := RowKey(row, fields, sep);
      DistinctKeys(rows + [row], fields, sep) ==
        if key in DistinctKeys(rows, fields, sep) then DistinctKeys(rows, fields, sep)
        else DistinctKeys(rows, fields, sep) + [key]
  {
    var ks := KeysOf(rows + [row], fields, sep);
    assert ks == KeysOf(rows, fields, sep) + [RowKey(row, fields, sep)];
    assert ks[..|ks| - 1] == KeysOf(rows, fields, sep);
  }

  /** A new row becomes the last one of its key and leaves the other keys' last rows alone. */
  lemma LastWithKeyStep(rows: seq<Row>, row: Row, fields: seq<string>, sep: string, k: string)
    requires k in KeysOf(rows + [row], fields, sep)
    ensures RowKey(row, fields, sep) == k ==> LastWithKey(rows + [row], fields, sep, k) == row
    ensures RowKey(row, fields, sep) != k ==>
      k in KeysOf(rows, fields, sep) && LastWithKey(rows + [row], fields, sep, k) == LastWithKey(rows, fields, sep, k)
  {
    var m := Members(rows, fields, sep, k);
    var m' := Members(rows + [row], fields, sep, k);
    MembersStep(rows, row, fields, sep, k);
    if RowKey(row, fields, sep) == k {
      assert m' == m + [row];
    } else {
      assert m' == m;
    }
  }

  /** The keys listed for the rows are the keys of the rows. */
  lemma KeySet(rows: seq<Row>, fields: seq<string>, sep: string)
    ensures (set x | x in KeysOf(rows, fields, sep)) == (set r | r in rows :: RowKey(r, fields, sep))
  {
    var ks := KeysOf(rows, fields, sep);
    forall x | x in ks ensures x in (set r | r in rows :: RowKey(r, fields, sep)) {
      var q :| 0 <= q < |ks| && ks[q] == x;
      assert rows[q] in rows;
    }
  }
}
