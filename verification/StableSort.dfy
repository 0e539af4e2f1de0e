/**
 The stable sort by (id, epoch) that topology derivation relies on, as an insertion sort: a
 row goes after every row whose key is not greater than its own.
 */
module StableSort {
  import opened Prelude
  import opened Identity
  import opened Rows

  predicate KeyLeq(a: Row, b: Row) {
    Before(a.id, b.id) || (a.id == b.id && a.epoch <= b.epoch)
  }

  ghost predicate Sorted(rows: seq<Row>) {
    forall i, j :: 0 <= i < j < |rows| ==> KeyLeq(rows[i], rows[j])
  }

  function Insert(sorted: seq<Row>, row: Row): seq<Row> {
    if sorted == [] || KeyLeq(sorted[|sorted| - 1], row) then sorted + [row]
    else Insert(sorted[..|sorted| - 1], row) + [sorted[|sorted| - 1]]
  }

  lemma {:induction false} InsertKeepsRows(sorted: seq<Row>, row: Row)
    ensures multiset(Insert(sorted, row)) == multiset(sorted) + multiset{row}
  {
    if sorted != [] && !KeyLeq(sorted[|sorted| - 1], row) {
      InsertKeepsRows(sorted[..|sorted| - 1], row);
      assert sorted == sorted[..|sorted| - 1] + [sorted[|sorted| - 1]];
    }
  }

  lemma InsertMember(sorted: seq<Row>, row: Row, x: Row)
    ensures x in Insert(sorted, row) <==> x in sorted || x == row
  {
    InsertKeepsRows(sorted, row);
    assert x in Insert(sorted, row) <==> x in multiset(Insert(sorted, row));
  }

  lemma {:induction false} InsertSorted(sorted: seq<Row>, row: Row)
    requires Sorted(sorted)
    ensures Sorted(Insert(sorted, row))
  {
    if sorted != [] && !KeyLeq(sorted[|sorted| - 1], row) {
      var front, last := sorted[..|sorted| - 1], sorted[|sorted| - 1];
      InsertSorted(front, row);
      forall x | x in Insert(front, row)
        ensures KeyLeq(x, last)
      {
        InsertMember(front, row, x);
      }
    }
  }

  function StableSorted(rows: seq<Row>): seq<Row> {
    if rows == [] then [] else Insert(StableSorted(rows[..|rows| - 1]), rows[|rows| - 1])
  }

  /** It is a sort: ordered, and a permutation of the rows. */
  lemma {:induction false} StableSortSorts(rows: seq<Row>)
    ensures Sorted(StableSorted(rows))
    ensures multiset(StableSorted(rows)) == multiset(rows)
  {
    if rows != [] {
      var front, last := rows[..|rows| - 1], rows[|rows| - 1];
      StableSortSorts(front);
      InsertSorted(StableSorted(front), last);
      InsertKeepsRows(StableSorted(front), last);
      assert rows == front + [last];
    }
  }

  lemma SortedMembers(rows: seq<Row>)
    ensures forall r :: r in StableSorted(rows) <==> r in rows
    ensures |StableSorted(rows)| == |rows|
  {
    StableSortSorts(rows);
    forall r
      ensures r in StableSorted(rows) <==> r in rows
    {
      assert r in StableSorted(rows) <==> r in multiset(StableSorted(rows));
      assert r in rows <==> r in multiset(rows);
    }
    assert |multiset(StableSorted(rows))| == |StableSorted(rows)|;
    assert |multiset(rows)| == |rows|;
  }

  lemma {:induction false} FilterInsert(sorted: seq<Row>, row: Row, keep: Row -> bool)
    requires Sorted(sorted)
    ensures Filter(Insert(sorted, row), keep)
         == if keep(row) then Insert(Filter(sorted, keep), row) else Filter(sorted, keep)
  {
    if sorted == [] || KeyLeq(sorted[|sorted| - 1], row) {
      FilterSnoc(sorted, row, keep);
      FilterMembers(sorted, keep);
      InsertLast(Filter(sorted, keep), row);
    } else {
      var front, last := sorted[..|sorted| - 1], sorted[|sorted| - 1];
      FilterInsert(front, row, keep);
      FilterSnoc(Insert(front, row), last, keep);
      InsertBeforeLast(Filter(front, keep), last, row);
    }
  }

  lemma InsertBeforeLast(front: seq<Row>, last: Row, row: Row)
    requires !KeyLeq(last, row)
    ensures Insert(front + [last], row) == Insert(front, row) + [last]
  {
    assert (front + [last])[..|front|] == front;
  }

  /** Inserting a row no smaller than any other appends it. */
  lemma InsertLast(rows: seq<Row>, row: Row)
    requires forall r :: r in rows ==> KeyLeq(r, row)
    ensures Insert(rows, row) == rows + [row]
  {
  }

  lemma {:induction false} SortedStays(rows: seq<Row>)
    requires Sorted(rows)
    ensures StableSorted(rows) == rows
  {
    if rows != [] {
      SortedStays(rows[..|rows| - 1]);
      InsertLast(rows[..|rows| - 1], rows[|rows| - 1]);
    }
  }

  /** Selecting rows and sorting stably commute. */
  lemma {:induction false} FilterSorted(rows: seq<Row>, keep: Row -> bool)
    ensures Filter(StableSorted(rows), keep) == StableSorted(Filter(rows, keep))
  {
    if rows != [] {
      var front, last := rows[..|rows| - 1], rows[|rows| - 1];
      FilterSorted(front, keep);
      StableSortSorts(front);
      FilterInsert(StableSorted(front), last, keep);
      if keep(last) {
        assert (Filter(front, keep) + [last])[..|Filter(front, keep)|] == Filter(front, keep);
      }
    }
  }

  /** Sorting a concatenation whose first part is nowhere greater than its second part. */
  lemma {:induction false} SortedConcat(a: seq<Row>, b: seq<Row>)
    requires forall r, s :: r in a && s in b ==> KeyLeq(r, s)
    ensures StableSorted(a + b) == StableSorted(a) + StableSorted(b)
  {
    if b == [] {
      assert a + b == a;
    } else {
      var front, last := b[..|b| - 1], b[|b| - 1];
      assert (a + b)[..|a + b| - 1] == a + front;
      SortedConcat(a, front);
      SortedMembers(a);
      InsertAfter(StableSorted(a), StableSorted(front), last);
    }
  }

  lemma {:induction false} InsertAfter(a: seq<Row>, b: seq<Row>, row: Row)
    requires forall r :: r in a ==> KeyLeq(r, row)
    ensures Insert(a + b, row) == a + Insert(b, row)
  {
    if b == [] {
      assert a + b == a;
      InsertLast(a, row);
    } else {
      assert (a + b)[..|a + b| - 1] == a + b[..|b| - 1];
      InsertAfter(a, b[..|b| - 1], row);
    }
  }
}
