/**
 * The listing of the Meals table: the rows ordered by id from largest to
 * smallest, each then turned into its JSON record.
 */
module MealListing {
  import opened Models

  /** A non-empty set of ids has an element. */
  lemma SomeId(ids: set<int>)
    requires ids != {}
    ensures exists y :: y in ids
  {
    if forall y :: y !in ids {
      assert false;
    }
  }

  /** Every non-empty set of ids has a largest element, returned as a witness. */
  lemma {:induction false} LargestWitness(ids: set<int>) returns (m: int)
    requires ids != {}
    ensures m in ids && forall x :: x in ids ==> x <= m
  {
    SomeId(ids);
    var y :| y in ids;
    var rest := ids - {y};
    if rest == {} {
      m := y;
    } else {
      var r := LargestWitness(rest);
      m := if y <= r then r else y;
    }
    forall x | x in ids ensures x <= m {
      if x != y { assert x in rest; }
    }
  }

  lemma LargestExists(ids: set<int>)
    requires ids != {}
    ensures exists m :: m in ids && forall x :: x in ids ==> x <= m
  {
    var w := LargestWitness(ids);
  }

  /** The largest id of a non-empty set. */
  function LargestId(ids: set<int>): (m: int)
    requires ids != {}
    ensures m in ids && forall x :: x in ids ==> x <= m
  {
    LargestExists(ids);
    var m :| m in ids && forall x :: x in ids ==> x <= m; m
  }

  /** The ids of a set, largest first: each id exactly once, strictly decreasing. */
  function IdsDescending(ids: set<int>): (r: seq<int>)
    ensures |r| == |ids|
    ensures forall x :: x in r <==> x in ids
    ensures forall i, j :: 0 <= i < j < |r| ==> r[i] > r[j]
    decreases ids
  {
    if ids == {} then []
    else
      var m := LargestId(ids);
      [m] + IdsDescending(ids - {m})
  }

  /** The record of each fetched row, in the order the rows come. */
  function Records(table: map<int, Meal>, ids: seq<int>): (r: seq<MealRecord>)
    requires forall i :: 0 <= i < |ids| ==> ids[i] in table
    ensures |r| == |ids|
    ensures forall i :: 0 <= i < |ids| ==> r[i].id == ids[i] && Columns(r[i]) == table[ids[i]]
  {
    if ids == [] then [] else [ToRecord(ids[0], table[ids[0]])] + Records(table, ids[1..])
  }

  /** The ordered rows of the table, each turned into its record. */
  function Listing(table: map<int, Meal>): seq<MealRecord> {
    Records(table, IdsDescending(table.Keys))
  }

  /** The listing has one record per row of the table. */
  lemma ListingLength(table: map<int, Meal>)
    ensures |Listing(table)| == |table|
  {
    assert |table.Keys| == |table|;
  }

  /** Every listed record is a row of the table, with the columns stored under its id. */
  lemma ListingRowsStored(table: map<int, Meal>)
    ensures var r := Listing(table);
      forall i :: 0 <= i < |r| ==> r[i].id in table && Columns(r[i]) == table[r[i].id]
  {
  }

  /** Every row of the table is listed, and only those rows. */
  lemma ListingCoversTable(table: map<int, Meal>)
    ensures var r := Listing(table);
      forall id :: id in table <==> exists i :: 0 <= i < |r| && r[i].id == id
  {
    var ids := IdsDescending(table.Keys);
    var r := Records(table, ids);
    forall id | id in table
      ensures exists i :: 0 <= i < |r| && r[i].id == id
    {
      assert id in ids;
      var i :| 0 <= i < |ids| && ids[i] == id;
      assert r[i].id == id;
    }
  }

  /** The listing is ordered by id, newest first, so no id is listed twice. */
  lemma ListingDescending(table: map<int, Meal>)
    ensures var r := Listing(table);
      forall i, j :: 0 <= i < j < |r| ==> r[i].id > r[j].id
  {
  }

  /** Records of ids on which two tables agree are the same records. */
  lemma {:induction false} RecordsAgree(t1: map<int, Meal>, t2: map<int, Meal>, ids: seq<int>)
    requires forall i :: 0 <= i < |ids| ==> ids[i] in t1 && ids[i] in t2 && t1[ids[i]] == t2[ids[i]]
    ensures Records(t1, ids) == Records(t2, ids)
  {
    if ids != [] {
      RecordsAgree(t1, t2, ids[1..]);
    }
  }

  /** An id above every existing id is the largest of the new key set and comes first. */
  lemma IdsDescendingWithTop(table: map<int, Meal>, id: int, m: Meal)
    requires forall k :: k in table ==> k < id
    ensures IdsDescending(table[id := m].Keys) == [id] + IdsDescending(table.Keys)
  {
    var all := table[id := m].Keys;
    assert all == table.Keys + {id};
    assert LargestId(all) == id;
    assert all - {id} == table.Keys;
  }

  /** Putting a new row's id in front of listed ids puts its record in front of theirs. */
  lemma RecordsWithNewRow(table: map<int, Meal>, id: int, m: Meal, ids: seq<int>)
    requires forall i :: 0 <= i < |ids| ==> ids[i] in table
    requires id !in table
    ensures Records(table[id := m], [id] + ids) == [ToRecord(id, m)] + Records(table, ids)
  {
    assert ([id] + ids)[1..] == ids;
    RecordsAgree(table[id := m], table, ids);
  }

  /**
   * A row stored under an id above every existing id (what the identity
   * column assigns) is listed first, ahead of the unchanged earlier listing.
   */
  lemma NewestListedFirst(table: map<int, Meal>, id: int, m: Meal)
    requires forall k :: k in table ==> k < id
    ensures Listing(table[id := m]) == [ToRecord(id, m)] + Listing(table)
  {
    IdsDescendingWithTop(table, id, m);
    RecordsWithNewRow(table, id, m, IdsDescending(table.Keys));
  }

}
