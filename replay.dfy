/** What the replay stage (findRadical in excavator.go) sends: the stored
    radical rows, page by page, followed by the nil sentinel. */
module Replay {
  import opened Records
  import opened Store
  import opened Sequences

  /** The offsets the replay loop reads, from `x` on, for a table of `n` rows:
      x, x+limit, x+2*limit, ... while below n. */
  function Offsets(n: int, limit: int, x: nat): seq<nat>
    requires limit > 0
    decreases n - x
  {
    if x >= n then [] else [x] + Offsets(n, limit, x + limit)
  }

  /** Every page read starts inside the table, at or after `x`. */
  lemma {:induction false} OffsetsInRange(n: int, limit: int, x: nat)
    requires limit > 0
    ensures forall o :: o in Offsets(n, limit, x) ==> x <= o < n
    decreases n - x
  {
    if x < n {
      OffsetsInRange(n, limit, x + limit);
    }
  }

  /** The i-th page read is at offset x + i*limit. */
  lemma {:induction false} OffsetsStepByLimit(n: int, limit: int, x: nat, i: int)
    requires limit > 0 && 0 <= i < |Offsets(n, limit, x)|
    ensures Offsets(n, limit, x)[i] == x + i * limit
    decreases n - x
  {
    if i > 0 {
      OffsetsStepByLimit(n, limit, x + limit, i - 1);
      assert (i - 1) * limit + limit == i * limit;
    }
  }

  /** The pages read cover the whole table: the offset after the last one is
      at or past the row count. */
  lemma {:induction false} OffsetsCoverTable(n: int, limit: int, x: nat)
    requires limit > 0
    ensures x + |Offsets(n, limit, x)| * limit >= n
    decreases n - x
  {
    if x < n {
      OffsetsCoverTable(n, limit, x + limit);
      var k := |Offsets(n, limit, x + limit)|;
      assert (k + 1) * limit == k * limit + limit;
    }
  }

  /** The rows a page read contributes: none when the query fails. */
  function PageOrSkip(rows: seq<RadicalCharacter>, failed: set<int>, limit: int, o: nat): seq<RadicalCharacter>
    requires limit > 0
  {
    if o in failed then [] else Page(rows, limit, o)
  }

  /** The rows the pages at `offs` contribute, in page order. */
  function Gather(rows: seq<RadicalCharacter>, failed: set<int>, limit: int, offs: seq<nat>): seq<RadicalCharacter>
    requires limit > 0
  {
    if offs == [] then [] else PageOrSkip(rows, failed, limit, offs[0]) + Gather(rows, failed, limit, offs[1..])
  }

  /** The replay loop ends: the page size is positive, or the stage exits
      before the loop because counting fails or the table is empty. With a
      page size of 0 or less and a non-empty table the loop never reaches the
      row count. */
  predicate Ends(rows: seq<RadicalCharacter>, faults: Faults, limit: int)
  {
    limit > 0 || faults.count || |rows| == 0
  }

  /** The rows the replay stage sends: none when counting fails or the table
      is empty; otherwise every page that could be read, in page order. */
  function Emitted(rows: seq<RadicalCharacter>, faults: Faults, limit: int): seq<RadicalCharacter>
    requires Ends(rows, faults, limit)
  {
    if faults.count || |rows| == 0 then [] else Gather(rows, faults.pages, limit, Offsets(|rows|, limit, 0))
  }

  /** The replay stage's whole output on its channel. */
  function Replayed(rows: seq<RadicalCharacter>, faults: Faults, limit: int): seq<Option<RadicalCharacter>>
    requires Ends(rows, faults, limit)
  {
    Sent(Emitted(rows, faults, limit)) + [None]
  }

  /** One step of the replay loop: the pages from offset x on are the page at
      x followed by the pages from x + limit on. */
  lemma GatherStep(rows: seq<RadicalCharacter>, failed: set<int>, limit: int, n: int, x: nat)
    requires limit > 0 && x < n
    ensures Offsets(n, limit, x) == [x] + Offsets(n, limit, x + limit)
    ensures Gather(rows, failed, limit, Offsets(n, limit, x))
      == PageOrSkip(rows, failed, limit, x) + Gather(rows, failed, limit, Offsets(n, limit, x + limit))
  {
    var rest := Offsets(n, limit, x + limit);
    assert ([x] + rest)[1..] == rest;
  }

  /** The replay loop's invariant survives one iteration: the rows sent before
      the page at x, followed by that page's rows, leave the pages from
      x + limit on to be sent. */
  lemma ReplayAdvance(rows: seq<RadicalCharacter>, failed: set<int>, limit: int, n: int, x: nat,
                      before: seq<RadicalCharacter>, total: seq<RadicalCharacter>)
    requires limit > 0 && x < n
    requires before + Gather(rows, failed, limit, Offsets(n, limit, x)) == total
    ensures (before + PageOrSkip(rows, failed, limit, x)) + Gather(rows, failed, limit, Offsets(n, limit, x + limit)) == total
  {
    GatherStep(rows, failed, limit, n, x);
    Assoc(before, PageOrSkip(rows, failed, limit, x), Gather(rows, failed, limit, Offsets(n, limit, x + limit)));
  }

  /** Exactly one nil sentinel, as the last message, on every path. */
  lemma ReplayTerminated(rows: seq<RadicalCharacter>, faults: Faults, limit: int)
    requires Ends(rows, faults, limit)
    ensures Terminated(Replayed(rows, faults, limit))
  {
    SentTerminated(Emitted(rows, faults, limit));
  }

  /** A failing count or an empty table: the sentinel is all that is sent,
      whatever the page size. */
  lemma ReplayOnlySentinel(rows: seq<RadicalCharacter>, faults: Faults, limit: int)
    requires faults.count || rows == []
    ensures Replayed(rows, faults, limit) == [None]
  {
  }

  /** Reading pages is compositional: the pages of `a + b` give the rows of
      `a`'s pages followed by those of `b`'s. */
  lemma {:induction false} GatherAppend(rows: seq<RadicalCharacter>, failed: set<int>, limit: int, a: seq<nat>, b: seq<nat>)
    requires limit > 0
    ensures Gather(rows, failed, limit, a + b) == Gather(rows, failed, limit, a) + Gather(rows, failed, limit, b)
    decreases |a|
  {
    if a == [] {
      assert a + b == b;
    } else {
      assert (a + b)[1..] == a[1..] + b;
      GatherAppend(rows, failed, limit, a[1..], b);
    }
  }

  /** A page whose query fails is skipped; the pages around it are still sent,
      in order. */
  lemma FailedPageSkipped(rows: seq<RadicalCharacter>, failed: set<int>, limit: int, a: seq<nat>, o: nat, b: seq<nat>)
    requires limit > 0 && o in failed
    ensures Gather(rows, failed, limit, a + [o] + b) == Gather(rows, failed, limit, a) + Gather(rows, failed, limit, b)
  {
    GatherAppend(rows, failed, limit, a, [o] + b);
    Assoc(a, [o], b);
    assert ([o] + b)[1..] == b;
    NilAppend(Gather(rows, failed, limit, b));
  }

  /** None of the pages at `offs` fails. */
  predicate NoneFailed(offs: seq<nat>, failed: set<int>)
  {
    offs == [] || (offs[0] !in failed && NoneFailed(offs[1..], failed))
  }

  lemma {:induction false} NoneFailedFrom(offs: seq<nat>, failed: set<int>)
    requires forall o :: o in offs ==> o !in failed
    ensures NoneFailed(offs, failed)
    decreases |offs|
  {
    if offs != [] {
      assert offs[0] in offs;
      forall o | o in offs[1..]
        ensures o !in failed
      {
        assert o in offs;
      }
      NoneFailedFrom(offs[1..], failed);
    }
  }

  /** A page that is not the last, followed by the rows after it. */
  lemma PageThenRest(rows: seq<RadicalCharacter>, limit: int, x: nat)
    requires limit > 0 && 0 <= x && x + limit < |rows|
    ensures Page(rows, limit, x) + rows[x + limit..] == rows[x..]
  {
    SliceSplit(rows, x, x + limit);
  }

  /** The last page holds all the rows from its offset on. */
  lemma LastPage(rows: seq<RadicalCharacter>, limit: int, x: nat)
    requires limit > 0 && 0 <= x < |rows| <= x + limit
    ensures Page(rows, limit, x) == rows[x..]
  {
  }

  /** With no failing page from `x` on, the pages read give exactly the rows
      from `x` on: nothing lost, nothing repeated, whatever the page size. */
  lemma {:induction false} GatherComplete(rows: seq<RadicalCharacter>, failed: set<int>, limit: int, x: nat)
    requires limit > 0 && x <= |rows|
    requires NoneFailed(Offsets(|rows|, limit, x), failed)
    ensures Gather(rows, failed, limit, Offsets(|rows|, limit, x)) == rows[x..]
    decreases |rows| - x
  {
    if x < |rows| {
      GatherStep(rows, failed, limit, |rows|, x);
      if x + limit < |rows| {
        GatherComplete(rows, failed, limit, x + limit);
        PageThenRest(rows, limit, x);
      } else {
        LastPage(rows, limit, x);
        AppendNil(rows[x..]);
      }
    }
  }

  /** Pagination completeness: when the count and every page read succeed, the
      replay sends every stored row exactly once, in table order, then nil. */
  lemma ReplayComplete(rows: seq<RadicalCharacter>, faults: Faults, limit: int)
    requires limit > 0 && !faults.count
    requires forall o :: o in Offsets(|rows|, limit, 0) ==> o !in faults.pages
    ensures Replayed(rows, faults, limit) == Sent(rows) + [None]
  {
    if rows != [] {
      NoneFailedFrom(Offsets(|rows|, limit, 0), faults.pages);
      GatherComplete(rows, faults.pages, limit, 0);
      assert rows[0..] == rows;
    }
  }

  /** The pages read from `x` on send rows of the table from `x` on, in table
      order, each at most once. */
  lemma {:induction false} GatherSubseq(rows: seq<RadicalCharacter>, failed: set<int>, limit: int, x: nat)
    requires limit > 0 && x <= |rows|
    ensures IsSubseq(Gather(rows, failed, limit, Offsets(|rows|, limit, x)), rows[x..])
    decreases |rows| - x
  {
    if x == |rows| {
      SubseqNil(rows[x..]);
    } else {
      GatherStep(rows, failed, limit, |rows|, x);
      var page := Page(rows, limit, x);
      var got := PageOrSkip(rows, failed, limit, x);
      SubseqRefl(page);
      SubseqNil(page);
      if x + limit < |rows| {
        GatherSubseq(rows, failed, limit, x + limit);
        PageThenRest(rows, limit, x);
        SubseqConcat(got, page, Gather(rows, failed, limit, Offsets(|rows|, limit, x + limit)), rows[x + limit..]);
      } else {
        LastPage(rows, limit, x);
        AppendNil(got);
      }
    }
  }

  /** Whatever fails, the replay sends only stored rows, in table order. */
  lemma ReplaySubseq(rows: seq<RadicalCharacter>, faults: Faults, limit: int)
    requires Ends(rows, faults, limit)
    ensures IsSubseq(Emitted(rows, faults, limit), rows)
  {
    if faults.count || rows == [] {
    } else {
      GatherSubseq(rows, faults.pages, limit, 0);
      assert rows[0..] == rows;
    }
  }
}
