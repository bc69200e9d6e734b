/**
 * The `audioFiles` table of the recording catalogue and the operations the
 * site performs on it: create, retitle, delete (with removal of the audio
 * file from disk), select by year and list by sort date.
 *
 * The table is an object holding its rows in storage order, the set of
 * paths present on disk, and the counter that supplies fresh row ids (the
 * schema's random UUID default).
 */
module Catalogue {
  import opened Wrappers
  import opened Ordering

  /** A row of the table; every column of the schema is text except the id, a number here. */
  datatype Row = Row(id: nat, year: string, sortDate: string, displayDate: string, title: string, filePath: string)

  /** What `deleteEntryById` reports: `{success:true}`, `{success:false, error:"Entry not found"}` or `{success:false}`. */
  datatype DeleteOutcome = Deleted | NotFound | UnlinkFailed

  function SortKey(r: Row): string { r.sortDate }

  predicate UniqueIds(rows: seq<Row>) {
    forall i, j :: 0 <= i < j < |rows| ==> rows[i].id != rows[j].id
  }

  /** Two rows of a table with unique ids that share an id are the same row. */
  lemma SameIdSameRow(rows: seq<Row>, x: Row, y: Row)
    requires UniqueIds(rows) && x in rows && y in rows && x.id == y.id
    ensures x == y
  {
    var i :| 0 <= i < |rows| && rows[i] == x;
    var j :| 0 <= j < |rows| && rows[j] == y;
  }

  /** `select ... where id = ? .get()`: the first row with that id. */
  function Lookup(rows: seq<Row>, id: nat): (r: Option<Row>)
    ensures r.Some? ==> r.value in rows && r.value.id == id
    ensures r.None? ==> forall x :: x in rows ==> x.id != id
  {
    if rows == [] then None
    else if rows[0].id == id then Some(rows[0])
    else
      var r := Lookup(rows[1..], id);
      assert rows == [rows[0]] + rows[1..];
      r
  }

  /** `delete ... where id in ids`: every other row, in storage order. */
  function WithoutIds(rows: seq<Row>, ids: set<nat>): (r: seq<Row>)
    ensures |r| <= |rows|
  {
    if rows == [] then []
    else if rows[0].id in ids then WithoutIds(rows[1..], ids)
    else [rows[0]] + WithoutIds(rows[1..], ids)
  }

  /** A row survives the deletion exactly when it was there and its id was not named. */
  lemma {:induction false} WithoutIdsMembers(rows: seq<Row>, ids: set<nat>)
    ensures forall x :: x in WithoutIds(rows, ids) <==> x in rows && x.id !in ids
  {
    if rows != [] {
      WithoutIdsMembers(rows[1..], ids);
      assert rows == [rows[0]] + rows[1..];
    }
  }

  /** Deleting rows keeps the remaining ids distinct. */
  lemma {:induction false} WithoutIdsUnique(rows: seq<Row>, ids: set<nat>)
    requires UniqueIds(rows)
    ensures UniqueIds(WithoutIds(rows, ids))
  {
    if rows != [] {
      var rest := WithoutIds(rows[1..], ids);
      WithoutIdsUnique(rows[1..], ids);
      WithoutIdsMembers(rows[1..], ids);
      if rows[0].id !in ids {
        forall x | x in rest ensures x.id != rows[0].id {
          var k :| 0 <= k < |rows[1..]| && rows[1..][k] == x;
          assert rows[k + 1] == x;
        }
        var r := [rows[0]] + rest;
        forall i, j | 0 <= i < j < |r| ensures r[i].id != r[j].id {
          if i == 0 {
            assert r[j] == rest[j - 1];
            assert rest[j - 1] in rest;
          } else {
            assert r[i] == rest[i - 1] && r[j] == rest[j - 1];
          }
        }
      }
    }
  }

  lemma {:induction false} WithoutIdsAppend(a: seq<Row>, b: seq<Row>, ids: set<nat>)
    ensures WithoutIds(a + b, ids) == WithoutIds(a, ids) + WithoutIds(b, ids)
  {
    if a != [] {
      var ab := a + b;
      assert ab[0] == a[0] && ab[1..] == a[1..] + b;
      WithoutIdsAppend(a[1..], b, ids);
      if a[0].id in ids {
        assert WithoutIds(ab, ids) == WithoutIds(ab[1..], ids);
      } else {
        assert WithoutIds(ab, ids) == [a[0]] + WithoutIds(ab[1..], ids);
      }
    } else {
      assert a + b == b;
    }
  }

  lemma {:induction false} WithoutIdsTwice(rows: seq<Row>, ids: set<nat>, more: set<nat>)
    ensures WithoutIds(WithoutIds(rows, ids), more) == WithoutIds(rows, ids + more)
  {
    if rows != [] {
      WithoutIdsTwice(rows[1..], ids, more);
    }
  }

  /** Removing ids none of the rows carry changes nothing. */
  lemma {:induction false} WithoutIdsNone(rows: seq<Row>, ids: set<nat>)
    requires forall x :: x in rows ==> x.id !in ids
    ensures WithoutIds(rows, ids) == rows
  {
    if rows != [] {
      assert rows[0] in rows;
      forall x | x in rows[1..] ensures x.id !in ids {
        assert x in rows;
      }
      WithoutIdsNone(rows[1..], ids);
      assert rows == [rows[0]] + rows[1..];
    }
  }

  /** `update ... set title = ? where id = ?`. */
  function Retitled(rows: seq<Row>, id: nat, title: string): (r: seq<Row>)
    ensures |r| == |rows|
    ensures forall i :: 0 <= i < |rows| ==> r[i].id == rows[i].id
    ensures forall x :: x in r ==> x.id != id ==> x in rows
  {
    if rows == [] then []
    else
      var rest := Retitled(rows[1..], id, title);
      var head := if rows[0].id == id then rows[0].(title := title) else rows[0];
      assert forall x :: x in rest ==> x.id != id ==> x in rows[1..];
      [head] + rest
  }

  /** Retitling touches the title of the rows with that id and nothing else. */
  lemma {:induction false} RetitledChangesOnlyTitle(rows: seq<Row>, id: nat, title: string)
    ensures forall i :: 0 <= i < |rows| ==>
      Retitled(rows, id, title)[i] == if rows[i].id == id then rows[i].(title := title) else rows[i]
  {
    if rows != [] {
      RetitledChangesOnlyTitle(rows[1..], id, title);
      var r := Retitled(rows, id, title);
      assert r[1..] == Retitled(rows[1..], id, title);
      forall i | 0 <= i < |rows|
        ensures r[i] == if rows[i].id == id then rows[i].(title := title) else rows[i]
      {
        if i > 0 {
          assert r[i] == r[1..][i - 1] && rows[i] == rows[1..][i - 1];
        }
      }
    }
  }

  /** An id no row carries leaves the rows as they are. */
  lemma RetitledUnknownId(rows: seq<Row>, id: nat, title: string)
    requires forall x :: x in rows ==> x.id != id
    ensures Retitled(rows, id, title) == rows
  {
    RetitledChangesOnlyTitle(rows, id, title);
    var r := Retitled(rows, id, title);
    forall i | 0 <= i < |rows| ensures r[i] == rows[i] {
      assert rows[i] in rows;
    }
  }

  /** `select ... where year = ?`: the rows of that year, in storage order. */
  function OfYear(rows: seq<Row>, year: string): (r: seq<Row>)
    ensures forall x :: x in r <==> x in rows && x.year == year
    ensures |r| <= |rows|
  {
    if rows == [] then []
    else
      var rest := OfYear(rows[1..], year);
      assert rows == [rows[0]] + rows[1..];
      if rows[0].year == year then [rows[0]] + rest else rest
  }

  /** The selection by year keeps each row as often as the table holds it. */
  lemma {:induction false} OfYearCounts(rows: seq<Row>, year: string, x: Row)
    ensures multiset(OfYear(rows, year))[x] == if x.year == year then multiset(rows)[x] else 0
  {
    if rows != [] {
      OfYearCounts(rows[1..], year, x);
      assert rows == [rows[0]] + rows[1..];
    }
  }

  class Table {
    var rows: seq<Row>
    var disk: set<string>
    var nextId: nat

    /** Row ids are distinct and all below the next id to hand out. */
    ghost predicate Valid()
      reads this
    {
      && UniqueIds(rows)
      && forall x :: x in rows ==> x.id < nextId
    }

    constructor(files: set<string>)
      ensures Valid()
      ensures rows == [] && disk == files && nextId == 0
    {
      rows := [];
      disk := files;
      nextId := 0;
    }

    /** `createNewEntry`: one row with the five given columns and a fresh id is appended. */
    method Create(year: string, sortDate: string, displayDate: string, title: string, filePath: string) returns (row: Row)
      requires Valid()
      modifies this
      ensures Valid()
      ensures row == Row(old(nextId), year, sortDate, displayDate, title, filePath)
      ensures forall x :: x in old(rows) ==> x.id != row.id
      ensures rows == old(rows) + [row]
      ensures disk == old(disk) && nextId == old(nextId) + 1
    {
      row := Row(nextId, year, sortDate, displayDate, title, filePath);
      rows := rows + [row];
      nextId := nextId + 1;
    }

    /** `editEntryById`: the rows with that id get the new title. */
    method EditTitle(id: nat, newTitle: string)
      requires Valid()
      modifies this
      ensures Valid()
      ensures rows == Retitled(old(rows), id, newTitle)
      ensures disk == old(disk) && nextId == old(nextId)
    {
      var r := Retitled(rows, id, newTitle);
      assert forall i :: 0 <= i < |r| ==> r[i].id == rows[i].id;
      assert forall x :: x in r ==> x.id < nextId by {
        forall x | x in r ensures x.id < nextId {
          var i :| 0 <= i < |r| && r[i] == x;
          assert rows[i] in rows;
        }
      }
      rows := r;
    }

    /**
     * `deleteEntryById`: an unknown id changes nothing and reports
     * `NotFound`. Otherwise the row is removed first, then its file is
     * unlinked; a file already gone makes the result `UnlinkFailed`, with
     * the row removed all the same.
     */
    method DeleteById(id: nat) returns (outcome: DeleteOutcome)
      requires Valid()
      modifies this
      ensures Valid()
      ensures nextId == old(nextId)
      ensures Lookup(old(rows), id).None? ==> outcome == NotFound && rows == old(rows) && disk == old(disk)
      ensures Lookup(old(rows), id).Some? ==>
        var path := Lookup(old(rows), id).value.filePath;
        && rows == WithoutIds(old(rows), {id})
        && disk == old(disk) - {path}
        && outcome == (if path in old(disk) then Deleted else UnlinkFailed)
    {
      match Lookup(rows, id)
      case None =>
        outcome := NotFound;
      case Some(entry) =>
        WithoutIdsMembers(rows, {id});
        WithoutIdsUnique(rows, {id});
        rows := WithoutIds(rows, {id});
        if entry.filePath in disk {
          disk := disk - {entry.filePath};
          outcome := Deleted;
        } else {
          outcome := UnlinkFailed;
        }
    }

    /** `getEntriesByYear`: exactly the rows of that year, in storage order; the table is left as it is. */
    method ByYear(year: string) returns (result: seq<Row>)
      ensures forall x :: x in result <==> x in rows && x.year == year
      ensures forall x :: multiset(result)[x] == if x.year == year then multiset(rows)[x] else 0
    {
      result := OfYear(rows, year);
      forall x {
        OfYearCounts(rows, year, x);
      }
    }

    /** `getAllEntries`: every row, as often as stored, by ascending sort date. */
    method All() returns (result: seq<Row>)
      ensures multiset(result) == multiset(rows)
      ensures SortedBy(result, SortKey, false)
    {
      result := SortBy(rows, SortKey, false);
    }

    /** `getAllEntriesDescending`: every row, as often as stored, newest sort date first. */
    method AllDescending() returns (result: seq<Row>)
      ensures multiset(result) == multiset(rows)
      ensures SortedBy(result, SortKey, true)
    {
      result := SortBy(rows, SortKey, true);
    }
  }
}
