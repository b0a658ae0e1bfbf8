/** Python's `sorted(rows, key=itemgetter(k), reverse=True)` on table rows:
    a stable sort into non-increasing order of column `k`, comparing cells
    as Python compares strings. */
module Sorting {
  import opened Strings

  /** A table row: one string per column. */
  type Row = seq<string>

  /** Every row has a cell in column `k`. */
  predicate HasColumn(rows: seq<Row>, k: nat) {
    forall i :: 0 <= i < |rows| ==> k < |rows[i]|
  }

  /** Column `k` never increases from one row to a later one. */
  predicate NonIncreasing(rows: seq<Row>, k: nat)
    requires HasColumn(rows, k)
  {
    forall i, j :: 0 <= i < j < |rows| ==> !Less(rows[i][k], rows[j][k])
  }

  /** The rows whose cell in column `k` equals `v`, in their order. */
  function WithKey(rows: seq<Row>, k: nat, v: string): (r: seq<Row>)
    requires HasColumn(rows, k)
    ensures |r| <= |rows|
  {
    if |rows| == 0 then []
    else (if rows[0][k] == v then [rows[0]] else []) + WithKey(rows[1..], k, v)
  }

  /** Places `x` after every row whose key is strictly greater and before the rest. */
  function Insert(x: Row, s: seq<Row>, k: nat): (r: seq<Row>)
    requires k < |x| && HasColumn(s, k)
    ensures multiset(r) == multiset(s) + multiset{x}
    ensures HasColumn(r, k)
  {
    if |s| == 0 || !Less(x[k], s[0][k]) then [x] + s
    else
      assert s == [s[0]] + s[1..];
      [s[0]] + Insert(x, s[1..], k)
  }

  /** The rows in non-increasing order of column `k`. */
  function SortDesc(rows: seq<Row>, k: nat): (r: seq<Row>)
    requires HasColumn(rows, k)
    ensures multiset(r) == multiset(rows)
    ensures |r| == |rows|
    ensures HasColumn(r, k)
  {
    if |rows| == 0 then []
    else
      assert rows == [rows[0]] + rows[1..];
      Insert(rows[0], SortDesc(rows[1..], k), k)
  }

  /** No row has a key in column `k` above `v`. */
  predicate Bounded(rows: seq<Row>, k: nat, v: string)
    requires HasColumn(rows, k)
  {
    forall i :: 0 <= i < |rows| ==> !Less(v, rows[i][k])
  }

  /** A row in front of sorted rows none of which is above it keeps them sorted. */
  lemma ConsNonIncreasing(h: Row, t: seq<Row>, k: nat)
    requires k < |h| && HasColumn(t, k) && NonIncreasing(t, k) && Bounded(t, k, h[k])
    ensures HasColumn([h] + t, k) && NonIncreasing([h] + t, k)
  {
    var r := [h] + t;
    assert forall i :: 1 <= i < |r| ==> r[i] == t[i - 1];
  }

  /** Inserting a row no greater than `v` keeps every row at most `v`. */
  lemma {:induction false} InsertBounded(x: Row, s: seq<Row>, k: nat, v: string)
    requires k < |x| && HasColumn(s, k) && !Less(v, x[k]) && Bounded(s, k, v)
    ensures Bounded(Insert(x, s, k), k, v)
  {
    if |s| > 0 && Less(x[k], s[0][k]) {
      InsertBounded(x, s[1..], k, v);
      var t := Insert(x, s[1..], k);
      assert forall i :: 1 <= i < |t| + 1 ==> ([s[0]] + t)[i] == t[i - 1];
    }
  }

  lemma {:induction false} InsertNonIncreasing(x: Row, s: seq<Row>, k: nat)
    requires k < |x| && HasColumn(s, k) && NonIncreasing(s, k)
    ensures NonIncreasing(Insert(x, s, k), k)
  {
    if |s| == 0 || !Less(x[k], s[0][k]) {
      forall j | 0 <= j < |s| ensures !Less(x[k], s[j][k]) {
        if j > 0 && Less(x[k], s[j][k]) {
          LessSplit(x[k], s[0][k], s[j][k]);
        }
      }
      ConsNonIncreasing(x, s, k);
    } else {
      var t := Insert(x, s[1..], k);
      InsertNonIncreasing(x, s[1..], k);
      LessAsymmetric(x[k], s[0][k]);
      InsertBounded(x, s[1..], k, s[0][k]);
      ConsNonIncreasing(s[0], t, k);
    }
  }

  /** The sort leaves column `k` in non-increasing order. */
  lemma {:induction false} SortDescNonIncreasing(rows: seq<Row>, k: nat)
    requires HasColumn(rows, k)
    ensures NonIncreasing(SortDesc(rows, k), k)
  {
    if |rows| > 0 {
      SortDescNonIncreasing(rows[1..], k);
      InsertNonIncreasing(rows[0], SortDesc(rows[1..], k), k);
    }
  }

  /** WithKey looks at the first row, then at the rest. */
  lemma WithKeyCons(h: Row, t: seq<Row>, k: nat, v: string)
    requires k < |h| && HasColumn(t, k)
    ensures HasColumn([h] + t, k)
    ensures WithKey([h] + t, k, v) == (if h[k] == v then [h] else []) + WithKey(t, k, v)
  {
    assert ([h] + t)[1..] == t;
  }

  lemma {:induction false} InsertWithKey(x: Row, s: seq<Row>, k: nat, v: string)
    requires k < |x| && HasColumn(s, k)
    ensures WithKey(Insert(x, s, k), k, v) == WithKey([x] + s, k, v)
  {
    if |s| > 0 && Less(x[k], s[0][k]) {
      var t := Insert(x, s[1..], k);
      var c0 := if s[0][k] == v then [s[0]] else [];
      var cx := if x[k] == v then [x] else [];
      var w := WithKey(s[1..], k, v);
      LessIrreflexive(x[k]);
      calc {
        WithKey(Insert(x, s, k), k, v);
        { WithKeyCons(s[0], t, k, v); }
        c0 + WithKey(t, k, v);
        { InsertWithKey(x, s[1..], k, v); WithKeyCons(x, s[1..], k, v); }
        c0 + (cx + w);
        { assert c0 == [] || cx == []; }
        cx + (c0 + w);
        { WithKeyCons(s[0], s[1..], k, v); assert [s[0]] + s[1..] == s; }
        cx + WithKey(s, k, v);
        { WithKeyCons(x, s, k, v); }
        WithKey([x] + s, k, v);
      }
    }
  }

  /** Stability: the rows sharing any one key keep their relative order. */
  lemma {:induction false} SortDescStable(rows: seq<Row>, k: nat, v: string)
    requires HasColumn(rows, k)
    ensures WithKey(SortDesc(rows, k), k, v) == WithKey(rows, k, v)
  {
    if |rows| > 0 {
      SortDescStable(rows[1..], k, v);
      InsertWithKey(rows[0], SortDesc(rows[1..], k), k, v);
      assert ([rows[0]] + SortDesc(rows[1..], k))[1..] == SortDesc(rows[1..], k);
    }
  }

  /** Rows already in non-increasing order come back unchanged. */
  lemma {:induction false} SortDescOfSorted(rows: seq<Row>, k: nat)
    requires HasColumn(rows, k) && NonIncreasing(rows, k)
    ensures SortDesc(rows, k) == rows
  {
    if |rows| > 0 {
      SortDescOfSorted(rows[1..], k);
      assert rows == [rows[0]] + rows[1..];
      if |rows| > 1 {
        assert !Less(rows[0][k], rows[1][k]);
      }
    }
  }
}
