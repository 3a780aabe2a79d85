/**
 * The record store (backend/storage/memory.go): one SQLite table `urls` whose
 * primary key is the record id. The table is a map from id to record; the three
 * writing statements are the map updates `Upsert` (INSERT OR REPLACE),
 * `UpdateWhere` (UPDATE … WHERE id = ?) and `DeleteWhere` (DELETE … WHERE id = ?).
 */
module Storage {
  import opened Models

  type Table = map<string, UrlInfo>

  /** Every row is stored under its own id. */
  predicate WellKeyed(table: Table) {
    forall k :: k in table ==> table[k].id == k
  }

  /** `INSERT OR REPLACE`: the row for `info.id` becomes `info`, inserted if absent. */
  function Upsert(table: Table, info: UrlInfo): (t: Table)
    ensures t.Keys == table.Keys + {info.id}
    ensures t[info.id] == info
    ensures forall k :: k in table && k != info.id ==> t[k] == table[k]
    ensures WellKeyed(table) ==> WellKeyed(t)
  {
    table[info.id := info]
  }

  /** `UPDATE … WHERE id = ?`: rewrites every column but the key of an existing row and
      never inserts one. */
  function UpdateWhere(table: Table, id: string, info: UrlInfo): (t: Table)
    ensures t.Keys == table.Keys
    ensures id in table ==> t[id] == info.(id := id)
    ensures forall k :: k in table && k != id ==> t[k] == table[k]
    ensures WellKeyed(table) ==> WellKeyed(t)
  {
    if id in table then table[id := info.(id := id)] else table
  }

  /** `DELETE … WHERE id = ?`. */
  function DeleteWhere(table: Table, id: string): (t: Table)
    ensures t.Keys == table.Keys - {id}
    ensures forall k :: k in t ==> t[k] == table[k]
    ensures WellKeyed(table) ==> WellKeyed(t)
  {
    table - {id}
  }

  /** An update aimed at an id that is not stored leaves the table as it was: a job
      finishing after its record was deleted cannot bring the record back. */
  lemma UpdateAbsentIsNoOp(table: Table, id: string, info: UrlInfo)
    requires id !in table
    ensures UpdateWhere(table, id, info) == table
  {
  }

  lemma NoResurrection(table: Table, id: string, info: UrlInfo)
    ensures UpdateWhere(DeleteWhere(table, id), id, info) == DeleteWhere(table, id)
    ensures id !in UpdateWhere(DeleteWhere(table, id), id, info)
  {
    UpdateAbsentIsNoOp(DeleteWhere(table, id), id, info);
  }

  /** Saving and then updating the same id keeps the key and takes the update's columns. */
  lemma SaveThenUpdate(table: Table, info: UrlInfo, update: UrlInfo)
    ensures UpdateWhere(Upsert(table, info), info.id, update) == Upsert(table, update.(id := info.id))
  {
    var left := UpdateWhere(Upsert(table, info), info.id, update);
    var right := Upsert(table, update.(id := info.id));
    assert left.Keys == right.Keys;
    forall k | k in left ensures left[k] == right[k] {
    }
  }

  /** Two updates of one row: the second one wins. */
  lemma UpdateTwice(table: Table, id: string, first: UrlInfo, second: UrlInfo)
    ensures UpdateWhere(UpdateWhere(table, id, first), id, second) == UpdateWhere(table, id, second)
  {
    var left := UpdateWhere(UpdateWhere(table, id, first), id, second);
    var right := UpdateWhere(table, id, second);
    assert left.Keys == right.Keys;
    forall k | k in left ensures left[k] == right[k] {
    }
  }

  /** While the rows are scanned: `all` lists each scanned row once, and `remaining`
      holds the keys not scanned yet. */
  ghost predicate Listing(all: seq<UrlInfo>, rows: Table, remaining: set<string>) {
    && remaining <= rows.Keys
    && (forall i :: 0 <= i < |all| ==> all[i].id in rows && all[i].id !in remaining && rows[all[i].id] == all[i])
    && (forall k :: k in rows && k !in remaining ==> exists i :: 0 <= i < |all| && all[i] == rows[k])
    && (forall i, j :: 0 <= i < j < |all| ==> all[i].id != all[j].id)
  }

  /** Scanning one more key keeps the listing. */
  lemma ListingStep(all: seq<UrlInfo>, rows: Table, remaining: set<string>, k: string)
    requires WellKeyed(rows) && Listing(all, rows, remaining) && k in remaining
    ensures Listing(all + [rows[k]], rows, remaining - {k})
  {
    var next := all + [rows[k]];
    assert next[|all|] == rows[k];
    forall done | done in rows && done !in remaining - {k}
      ensures exists i :: 0 <= i < |next| && next[i] == rows[done]
    {
      if done == k {
        assert next[|all|] == rows[done];
      } else {
        var i :| 0 <= i < |all| && all[i] == rows[done];
        assert next[i] == rows[done];
      }
    }
  }

  class Store {
    var rows: Table

    ghost predicate Valid()
      reads this
    {
      WellKeyed(rows)
    }

    /** `InitDB`: `CREATE TABLE IF NOT EXISTS` keeps whatever the database file
        `persisted` already holds (nothing, for a fresh file). Its rows are keyed by
        their `id` column, the primary key. */
    constructor (persisted: Table)
      requires WellKeyed(persisted)
      ensures Valid() && rows == persisted
    {
      rows := persisted;
    }

    /** `SaveURL`. */
    method SaveURL(info: UrlInfo)
      requires Valid()
      modifies this
      ensures Valid()
      ensures rows == Upsert(old(rows), info)
    {
      rows := rows[info.id := info];
    }

    /** `UpdateURL`: reports success whenever the statement runs, whether or not a row
        matched. */
    method UpdateURL(id: string, info: UrlInfo) returns (ok: bool)
      requires Valid()
      modifies this
      ensures Valid()
      ensures rows == UpdateWhere(old(rows), id, info)
      ensures ok
    {
      if id in rows {
        rows := rows[id := info.(id := id)];
      }
      ok := true;
    }

    /** `DeleteURL`: true exactly when a row was removed. */
    method DeleteURL(id: string) returns (removed: bool)
      requires Valid()
      modifies this
      ensures Valid()
      ensures rows == DeleteWhere(old(rows), id)
      ensures removed <==> id in old(rows)
    {
      removed := id in rows;
      rows := rows - {id};
    }

    /** `GetURLByID`: the stored row, or the zero record when there is none. */
    method GetURLByID(id: string) returns (info: UrlInfo, found: bool)
      ensures found <==> id in rows
      ensures found ==> info == rows[id]
      ensures !found ==> info == Blank()
    {
      found := id in rows;
      if found {
        info := rows[id];
      } else {
        info := Blank();
      }
    }

    /** `GetAllURLs`: every stored row exactly once, in an order the table does not fix. */
    method GetAllURLs() returns (all: seq<UrlInfo>)
      requires Valid()
      ensures |all| == |rows|
      ensures forall i :: 0 <= i < |all| ==> all[i].id in rows && rows[all[i].id] == all[i]
      ensures forall k :: k in rows ==> exists i :: 0 <= i < |all| && all[i] == rows[k]
      ensures forall i, j :: 0 <= i < j < |all| ==> all[i].id != all[j].id
    {
      all := [];
      var remaining := rows.Keys;
      while remaining != {}
        invariant |all| + |remaining| == |rows.Keys|
        invariant Listing(all, rows, remaining)
        decreases |remaining|
      {
        var k :| k in remaining;
        ListingStep(all, rows, remaining, k);
        all := all + [rows[k]];
        remaining := remaining - {k};
      }
    }
  }
}
