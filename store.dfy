/** The row store as the pipeline uses it: count, count by URL, offset/limit
    paging and insert-one over a sequence of radical rows. The engine is an
    external collaborator; which of its queries fail is fixed by a fault plan. */
module Store {
  import opened Records

  datatype DbError = CountFailed | FindFailed | InsertFailed

  datatype Result<+T> = Ok(value: T) | Err(error: DbError)

  /** The queries the engine rejects: the table count, the pages at the given
      offsets, the per-URL counts for the given URLs and the inserts of rows
      with the given URLs. */
  datatype Faults = Faults(count: bool, pages: set<int>, urlCounts: set<string>, inserts: set<string>)

  const NoFaults := Faults(false, {}, {}, {})

  /** The URLs present in the table. */
  function URLs(rows: seq<RadicalCharacter>): set<string>
  {
    set i | 0 <= i < |rows| :: rows[i].url
  }

  lemma URLsAppend(rows: seq<RadicalCharacter>, rc: RadicalCharacter)
    ensures URLs(rows + [rc]) == URLs(rows) + {rc.url}
  {
    var all := rows + [rc];
    assert all[|rows|].url == rc.url;
    forall u | u in URLs(rows)
      ensures u in URLs(all)
    {
      var i :| 0 <= i < |rows| && rows[i].url == u;
      assert all[i].url == u;
    }
  }

  lemma URLsNonEmpty(rows: seq<RadicalCharacter>)
    ensures rows != [] ==> URLs(rows) != {}
  {
    if rows != [] {
      assert rows[0].url in URLs(rows);
    }
  }

  /** `count(*) where url = ?`: the number of rows carrying `url`. */
  function CountURL(rows: seq<RadicalCharacter>, url: string): (n: nat)
    ensures n <= |rows|
    ensures n > 0 <==> url in URLs(rows)
  {
    if rows == [] then 0
    else
      var init := rows[..|rows| - 1];
      assert rows == init + [rows[|rows| - 1]];
      URLsAppend(init, rows[|rows| - 1]);
      CountURL(init, url) + (if rows[|rows| - 1].url == url then 1 else 0)
  }

  /** Appending a row raises the count of its URL by one and no other. */
  lemma CountURLAppend(rows: seq<RadicalCharacter>, rc: RadicalCharacter, url: string)
    ensures CountURL(rows + [rc], url) == CountURL(rows, url) + (if rc.url == url then 1 else 0)
  {
    assert (rows + [rc])[..|rows|] == rows;
  }

  function Min(a: int, b: int): int
  {
    if a < b then a else b
  }

  /** `limit ? offset ?`: the rows at positions offset .. offset+limit-1 that exist. */
  function Page(rows: seq<RadicalCharacter>, limit: int, offset: int): seq<RadicalCharacter>
    requires limit > 0 && offset >= 0
  {
    if offset >= |rows| then [] else rows[offset..Min(offset + limit, |rows|)]
  }

  class Database {
    const faults: Faults
    var rows: seq<RadicalCharacter>

    constructor (faults: Faults, rows: seq<RadicalCharacter>)
      ensures this.faults == faults && this.rows == rows
    {
      this.faults := faults;
      this.rows := rows;
    }

    method Count() returns (r: Result<nat>)
      ensures r == if faults.count then Err(CountFailed) else Ok(|rows|)
    {
      if faults.count {
        r := Err(CountFailed);
      } else {
        r := Ok(|rows|);
      }
    }

    method CountWhereURL(url: string) returns (r: Result<nat>)
      ensures r == if url in faults.urlCounts then Err(CountFailed) else Ok(CountURL(rows, url))
    {
      if url in faults.urlCounts {
        r := Err(CountFailed);
      } else {
        r := Ok(CountURL(rows, url));
      }
    }

    method Find(limit: int, offset: int) returns (r: Result<seq<RadicalCharacter>>)
      requires limit > 0 && offset >= 0
      ensures r == if offset in faults.pages then Err(FindFailed) else Ok(Page(rows, limit, offset))
    {
      if offset in faults.pages {
        r := Err(FindFailed);
      } else {
        r := Ok(Page(rows, limit, offset));
      }
    }

    method InsertOne(rc: RadicalCharacter) returns (e: Option<DbError>)
      modifies this
      ensures e == if rc.url in faults.inserts then Some(InsertFailed) else None
      ensures rows == if e == None then old(rows) + [rc] else old(rows)
    {
      if rc.url in faults.inserts {
        e := Some(InsertFailed);
      } else {
        rows := rows + [rc];
        e := None;
      }
    }
  }
}
