/**
 * The table the page shows under the forms: every category joined with the number
 * of products referencing it (a left join, so a category without products shows 0),
 * ordered by name.
 */
module Listing {
  import opened Text
  import opened Store

  datatype Row = Row(id: int, name: string, img: string, productCount: nat)

  predicate SortedByName(list: seq<Row>) {
    forall i, j :: 0 <= i < j < |list| ==> NameLeq(list[i].name, list[j].name)
  }

  predicate DistinctIds(list: seq<Row>) {
    forall i, j :: 0 <= i < j < |list| ==> list[i].id != list[j].id
  }

  /** `row` shows the stored category with its id, and that category's product count. */
  predicate Shows(rows: Rows, count: ProductCount, row: Row) {
    row.id in rows && row.name == rows[row.id].name && row.img == rows[row.id].img
    && row.productCount == count(row.id)
  }

  /** Places `x` into a name-sorted list, before the first row whose name is not below it. */
  function InsertByName(list: seq<Row>, x: Row): (r: seq<Row>)
    requires SortedByName(list)
    ensures SortedByName(r)
    ensures multiset(r) == multiset(list) + multiset{x}
    ensures |r| == |list| + 1
    ensures forall y :: y in r <==> y == x || y in list
    decreases |list|
  {
    if list == [] then [x]
    else if NameLeq(x.name, list[0].name) then
      var r := [x] + list;
      assert forall j :: 0 < j < |r| ==> NameLeq(x.name, r[j].name) by {
        forall j | 0 < j < |r|
          ensures NameLeq(x.name, r[j].name)
        {
          if j > 1 {
            NameLeqTransitive(x.name, list[0].name, r[j].name);
          }
        }
      }
      r
    else
      NameLeqTotal(x.name, list[0].name);
      var rest := InsertByName(list[1..], x);
      var r := [list[0]] + rest;
      assert list == [list[0]] + list[1..];
      assert forall j :: 0 < j < |r| ==> NameLeq(list[0].name, r[j].name) by {
        forall j | 0 < j < |r|
          ensures NameLeq(list[0].name, r[j].name)
        {
          assert r[j] in rest;
          if r[j] != x {
            assert r[j] in list[1..];
            var k :| 0 <= k < |list[1..]| && list[1..][k] == r[j];
            assert list[k + 1] == r[j];
          }
        }
      }
      r
  }

  /** Inserting a row whose id is not yet listed keeps the ids distinct. */
  lemma {:induction false} InsertKeepsIdsDistinct(list: seq<Row>, x: Row)
    requires SortedByName(list) && DistinctIds(list)
    requires forall i :: 0 <= i < |list| ==> list[i].id != x.id
    ensures DistinctIds(InsertByName(list, x))
    decreases |list|
  {
    if list != [] && !NameLeq(x.name, list[0].name) {
      var rest := InsertByName(list[1..], x);
      InsertKeepsIdsDistinct(list[1..], x);
      var r := [list[0]] + rest;
      assert r == InsertByName(list, x);
      forall i, j | 0 <= i < j < |r|
        ensures r[i].id != r[j].id
      {
        if i == 0 {
          assert r[j] in rest;
          if r[j] != x {
            var k :| 0 <= k < |list[1..]| && list[1..][k] == r[j];
            assert list[k + 1] == r[j];
          }
        } else {
          assert r[i] == rest[i - 1] && r[j] == rest[j - 1];
        }
      }
    }
  }

  /** Builds the listing of `rows`: sorted by name, every category exactly once, each
      shown with its own name, image and product count. When names are unique the
      order is strict. */
  method BuildListing(rows: Rows, count: ProductCount) returns (list: seq<Row>)
    ensures SortedByName(list)
    ensures DistinctIds(list)
    ensures forall i :: 0 <= i < |list| ==> Shows(rows, count, list[i])
    ensures forall id :: id in rows ==> exists i :: 0 <= i < |list| && list[i].id == id
    ensures |list| == |rows|
    ensures NamesUnique(rows) ==> forall i, j :: 0 <= i < j < |list| ==> list[i].name != list[j].name
  {
    list := [];
    var pending := rows.Keys;
    while pending != {}
      invariant pending <= rows.Keys
      invariant SortedByName(list) && DistinctIds(list)
      invariant forall i :: 0 <= i < |list| ==> Shows(rows, count, list[i]) && list[i].id !in pending
      invariant forall id :: id in rows && id !in pending ==> exists i :: 0 <= i < |list| && list[i].id == id
      invariant |list| + |pending| == |rows|
      decreases |pending|
    {
      if forall k :: k !in pending {
        // a non-empty set has a member
        assert false;
      }
      var id :| id in pending;
      var row := Row(id, rows[id].name, rows[id].img, count(id));
      InsertKeepsIdsDistinct(list, row);
      var next := InsertByName(list, row);
      forall k | k in rows && k !in pending - {id}
        ensures exists i :: 0 <= i < |next| && next[i].id == k
      {
        if k == id {
          assert row in next;
        } else {
          var i :| 0 <= i < |list| && list[i].id == k;
          assert list[i] in next;
        }
      }
      forall i | 0 <= i < |next|
        ensures Shows(rows, count, next[i]) && next[i].id !in pending - {id}
      {
        assert next[i] in next;
        if next[i] != row {
          var k :| 0 <= k < |list| && list[k] == next[i];
        }
      }
      list := next;
      pending := pending - {id};
    }
  }
}
