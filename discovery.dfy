/** What the discovery stage (parseRadical and saveRadicalCharacter in
    excavator.go) sends and stores. The listing page is abstracted as the
    `data-action` values of its `a[href][data-action]` anchors, in document
    order; the discovery endpoint as a map from each token whose POST, read
    and decoding succeed to its decoded unions (a token outside the map is
    one whose request or decoding fails). */
module Discovery {
  import opened Records
  import opened Store
  import opened Sequences

  type Endpoint = map<string, seq<RadicalUnion>>

  /** The records of the unions, in union order and array order within one. */
  function Flatten(unions: seq<RadicalUnion>): seq<RadicalCharacter>
  {
    if unions == [] then []
    else Flatten(unions[..|unions| - 1]) + unions[|unions| - 1].radicalCharacterArray
  }

  /** The records one anchor leads to: none for an empty action or a failed
      reply. */
  function Yield(action: string, ajax: Endpoint): seq<RadicalCharacter>
  {
    if action == "" || action !in ajax then [] else Flatten(ajax[action])
  }

  /** The decoded records of all anchors, in anchor order. */
  function Candidates(actions: seq<string>, ajax: Endpoint): seq<RadicalCharacter>
  {
    if actions == [] then []
    else Candidates(actions[..|actions| - 1], ajax) + Yield(actions[|actions| - 1], ajax)
  }

  datatype Saved = Saved(err: Option<DbError>, rows: seq<RadicalCharacter>)

  /** saveRadicalCharacter as written: the URL count is the gate, and the row
      is inserted only when the count is POSITIVE. A failed count returns its
      error; a zero count returns nil without inserting. */
  function Save(rows: seq<RadicalCharacter>, faults: Faults, rc: RadicalCharacter): Saved
  {
    if rc.url in faults.urlCounts then Saved(Some(CountFailed), rows)
    else if CountURL(rows, rc.url) == 0 then Saved(None, rows)
    else if rc.url in faults.inserts then Saved(Some(InsertFailed), rows)
    else Saved(None, rows + [rc])
  }

  datatype Outcome = Outcome(emitted: seq<RadicalCharacter>, rows: seq<RadicalCharacter>)

  /** Saving the records one after another, each seeing the table the earlier
      ones left; a record is sent only when its save returned nil. */
  function SaveAll(rows: seq<RadicalCharacter>, faults: Faults, recs: seq<RadicalCharacter>): Outcome
  {
    if recs == [] then Outcome([], rows)
    else
      var before := SaveAll(rows, faults, recs[..|recs| - 1]);
      var rc := recs[|recs| - 1];
      var saved := Save(before.rows, faults, rc);
      Outcome(before.emitted + (if saved.err == None then [rc] else []), saved.rows)
  }

  /** The records the discovery stage sends and the table it leaves. */
  function Discovered(rows: seq<RadicalCharacter>, faults: Faults, actions: seq<string>, ajax: Endpoint): Outcome
  {
    SaveAll(rows, faults, Candidates(actions, ajax))
  }

  /** The discovery stage's whole output on its channel. */
  function DiscoveryOutput(rows: seq<RadicalCharacter>, faults: Faults, actions: seq<string>, ajax: Endpoint): seq<Option<RadicalCharacter>>
  {
    Sent(Discovered(rows, faults, actions, ajax).emitted) + [None]
  }

  /** One more candidate, on the channel: the record is sent exactly when its
      save, on the table the earlier saves left, returned nil. */
  lemma SaveAllSnoc(rows: seq<RadicalCharacter>, faults: Faults, seen: seq<RadicalCharacter>, rc: RadicalCharacter)
    ensures var before := SaveAll(rows, faults, seen);
      var saved := Save(before.rows, faults, rc);
      && SaveAll(rows, faults, seen + [rc]).rows == saved.rows
      && (saved.err == None ==> Sent(SaveAll(rows, faults, seen + [rc]).emitted) == Sent(before.emitted) + [Some(rc)])
      && (saved.err != None ==> Sent(SaveAll(rows, faults, seen + [rc]).emitted) == Sent(before.emitted))
  {
    assert (seen + [rc])[..|seen|] == seen;
    var before := SaveAll(rows, faults, seen);
    var saved := Save(before.rows, faults, rc);
    if saved.err == None {
      SentPush(before.emitted, rc);
    } else {
      AppendNil(before.emitted);
    }
  }

  lemma FlattenSnoc(unions: seq<RadicalUnion>, j: nat)
    requires j < |unions|
    ensures Flatten(unions[..j + 1]) == Flatten(unions[..j]) + unions[j].radicalCharacterArray
  {
    assert unions[..j + 1][..j] == unions[..j];
  }

  /** The gate of saveRadicalCharacter: it inserts the one record, and only
      when the URL count succeeded and was positive and the insert succeeded;
      it returns nil exactly when the count succeeded and was zero, or the
      insert succeeded. */
  lemma SaveGate(rows: seq<RadicalCharacter>, faults: Faults, rc: RadicalCharacter)
    ensures Save(rows, faults, rc).rows == rows || Save(rows, faults, rc).rows == rows + [rc]
    ensures Save(rows, faults, rc).rows == rows + [rc] <==>
      rc.url !in faults.urlCounts && rc.url in URLs(rows) && rc.url !in faults.inserts
    ensures Save(rows, faults, rc).err == None <==>
      rc.url !in faults.urlCounts && (rc.url !in URLs(rows) || rc.url !in faults.inserts)
  {
    assert |rows + [rc]| != |rows|;
  }

  /** The inverted gate never stores a new URL: a save adds only a duplicate
      of a URL already present. */
  lemma SaveOnlyDuplicates(rows: seq<RadicalCharacter>, faults: Faults, rc: RadicalCharacter)
    ensures URLs(Save(rows, faults, rc).rows) == URLs(rows)
    ensures Save(rows, faults, rc).rows != rows ==> CountURL(Save(rows, faults, rc).rows, rc.url) >= 2
  {
    var saved := Save(rows, faults, rc);
    if saved.rows != rows {
      URLsAppend(rows, rc);
      assert (rows + [rc])[..|rows|] == rows;
    }
  }

  /** Over a run of saves the table only grows at the end, and its set of
      URLs never changes. */
  lemma {:induction false} SaveAllKeepsURLs(rows: seq<RadicalCharacter>, faults: Faults, recs: seq<RadicalCharacter>)
    ensures rows <= SaveAll(rows, faults, recs).rows
    ensures URLs(SaveAll(rows, faults, recs).rows) == URLs(rows)
    decreases |recs|
  {
    if recs != [] {
      var before := SaveAll(rows, faults, recs[..|recs| - 1]);
      SaveAllKeepsURLs(rows, faults, recs[..|recs| - 1]);
      SaveOnlyDuplicates(before.rows, faults, recs[|recs| - 1]);
    }
  }

  /** A record is sent only as one of the candidates, in candidate order. */
  lemma {:induction false} SaveAllEmitsSubseq(rows: seq<RadicalCharacter>, faults: Faults, recs: seq<RadicalCharacter>)
    ensures IsSubseq(SaveAll(rows, faults, recs).emitted, recs)
    decreases |recs|
  {
    if recs == [] {
    } else {
      var init, rc := recs[..|recs| - 1], recs[|recs| - 1];
      assert recs == init + [rc];
      SaveAllEmitsSubseq(rows, faults, init);
      var before := SaveAll(rows, faults, init);
      var tail: seq<RadicalCharacter> := if Save(before.rows, faults, rc).err == None then [rc] else [];
      SubseqRefl([rc]);
      SubseqConcat(before.emitted, init, tail, [rc]);
    }
  }

  /** The candidates whose URL is in `urls`, in order. */
  function WithURLIn(recs: seq<RadicalCharacter>, urls: set<string>): seq<RadicalCharacter>
  {
    if recs == [] then []
    else WithURLIn(recs[..|recs| - 1], urls) + (if recs[|recs| - 1].url in urls then [recs[|recs| - 1]] else [])
  }

  /** With a store that rejects nothing, every candidate is sent, and the table
      gains a duplicate of exactly the candidates whose URL it already held. */
  lemma {:induction false} SaveAllFaultFree(rows: seq<RadicalCharacter>, faults: Faults, recs: seq<RadicalCharacter>)
    requires faults.urlCounts == {} && faults.inserts == {}
    ensures SaveAll(rows, faults, recs).emitted == recs
    ensures SaveAll(rows, faults, recs).rows == rows + WithURLIn(recs, URLs(rows))
    decreases |recs|
  {
    if recs == [] {
      assert rows + [] == rows;
    } else {
      var init, rc := recs[..|recs| - 1], recs[|recs| - 1];
      SaveAllFaultFree(rows, faults, init);
      SaveAllKeepsURLs(rows, faults, init);
      var before := SaveAll(rows, faults, init);
      var kept := if rc.url in URLs(rows) then [rc] else [];
      assert Save(before.rows, faults, rc) == Saved(None, before.rows + kept);
      assert WithURLIn(recs, URLs(rows)) == WithURLIn(init, URLs(rows)) + kept;
      assert before.rows + kept == rows + WithURLIn(recs, URLs(rows));
    }
  }

  /** Starting from an empty table, discovery never stores anything. */
  lemma EmptyStoreStaysEmpty(faults: Faults, actions: seq<string>, ajax: Endpoint)
    ensures Discovered([], faults, actions, ajax).rows == []
  {
    var after := Discovered([], faults, actions, ajax).rows;
    SaveAllKeepsURLs([], faults, Candidates(actions, ajax));
    URLsNonEmpty(after);
  }

  lemma {:induction false} FlattenAppend(a: seq<RadicalUnion>, b: seq<RadicalUnion>)
    ensures Flatten(a + b) == Flatten(a) + Flatten(b)
    decreases |b|
  {
    if b == [] {
      assert a + b == a;
    } else {
      assert (a + b)[..|a + b| - 1] == a + b[..|b| - 1];
      FlattenAppend(a, b[..|b| - 1]);
    }
  }

  /** One more anchor: its records come after those of the earlier ones. */
  lemma CandidatesPush(actions: seq<string>, action: string, ajax: Endpoint)
    ensures Candidates(actions + [action], ajax) == Candidates(actions, ajax) + Yield(action, ajax)
  {
    assert (actions + [action])[..|actions|] == actions;
  }

  /** The anchors are handled in document order: the candidates of `a + b` are
      those of `a` followed by those of `b`. */
  lemma {:induction false} CandidatesAppend(a: seq<string>, b: seq<string>, ajax: Endpoint)
    ensures Candidates(a + b, ajax) == Candidates(a, ajax) + Candidates(b, ajax)
    decreases |b|
  {
    if b == [] {
      assert a + b == a;
      AppendNil(Candidates(a, ajax));
    } else {
      var init, last := b[..|b| - 1], b[|b| - 1];
      assert b == init + [last];
      assert a + b == (a + init) + [last];
      CandidatesPush(a + init, last, ajax);
      CandidatesPush(init, last, ajax);
      CandidatesAppend(a, init, ajax);
      Assoc(Candidates(a, ajax), Candidates(init, ajax), Yield(last, ajax));
    }
  }

  /** An anchor with an empty action, or whose request or decoding fails,
      produces nothing, and the other anchors are unaffected. */
  lemma SilentAnchor(a: seq<string>, action: string, b: seq<string>, ajax: Endpoint)
    requires action == "" || action !in ajax
    ensures Candidates(a + [action] + b, ajax) == Candidates(a + b, ajax)
  {
    CandidatesAppend(a + [action], b, ajax);
    CandidatesPush(a, action, ajax);
    AppendNil(Candidates(a, ajax));
    CandidatesAppend(a, b, ajax);
  }

  /** Exactly one nil sentinel, as the last message, however the anchors,
      requests and saves go. */
  lemma DiscoveryTerminated(rows: seq<RadicalCharacter>, faults: Faults, actions: seq<string>, ajax: Endpoint)
    ensures Terminated(DiscoveryOutput(rows, faults, actions, ajax))
  {
    SentTerminated(Discovered(rows, faults, actions, ajax).emitted);
  }

  /** The two-anchor page of the scenarios below: "A" decodes to one record,
      "B" fails; the only candidate is that record. */
  lemma ScenarioCandidates(rec: RadicalCharacter)
    ensures Candidates(["A", "B"], map["A" := [RadicalUnion([rec])]]) == [rec]
  {
    var ajax: Endpoint := map["A" := [RadicalUnion([rec])]];
    CandidatesPush([], "A", ajax);
    CandidatesPush(["A"], "B", ajax);
    assert [] + ["A"] == ["A"] && ["A"] + ["B"] == ["A", "B"];
    assert "B" !in ajax;
    assert Yield("A", ajax) == [rec] by {
      var unions := [RadicalUnion([rec])];
      assert ajax["A"] == unions;
      assert unions[..0] == [];
      assert Flatten(unions) == Flatten([]) + [rec];
    }
  }

  /** Two anchors "A" and "B" on an empty store with no faults, "A" decoding to
      one record and "B" failing: the record is sent, then nil, and the table
      stays empty (no row is persisted). */
  lemma EmptyStoreScenario(rec: RadicalCharacter)
    ensures var ajax: Endpoint := map["A" := [RadicalUnion([rec])]];
      && DiscoveryOutput([], NoFaults, ["A", "B"], ajax) == [Some(rec), None]
      && Discovered([], NoFaults, ["A", "B"], ajax).rows == []
  {
    ScenarioCandidates(rec);
    assert Save([], NoFaults, rec) == Saved(None, []);
    SaveAllSnoc([], NoFaults, [], rec);
    assert [] + [rec] == [rec];
  }

  /** A record whose URL count fails is not sent: the early `continue` on the
      save's error skips the send. */
  lemma CountErrorNotSent(rows: seq<RadicalCharacter>, faults: Faults, rc: RadicalCharacter)
    requires rc.url in faults.urlCounts
    ensures SaveAll(rows, faults, [rc]).emitted == []
  {
    SaveAllSnoc(rows, faults, [], rc);
    assert [] + [rc] == [rc];
  }

  /** The save as its purpose asks: insert-if-absent by URL. A failed count
      returns its error and inserts nothing; a positive count skips the
      insert; a zero count inserts the record and returns the insert's
      result. */
  function SaveIfAbsent(rows: seq<RadicalCharacter>, faults: Faults, rc: RadicalCharacter): Saved
  {
    if rc.url in faults.urlCounts then Saved(Some(CountFailed), rows)
    else if CountURL(rows, rc.url) > 0 then Saved(None, rows)
    else if rc.url in faults.inserts then Saved(Some(InsertFailed), rows)
    else Saved(None, rows + [rc])
  }

  /** Saving the records one after another with the insert-if-absent gate. A
      failed existence check is logged and the record is still sent; only a
      failed insert keeps it off the channel. */
  function SaveAllIfAbsent(rows: seq<RadicalCharacter>, faults: Faults, recs: seq<RadicalCharacter>): Outcome
  {
    if recs == [] then Outcome([], rows)
    else
      var before := SaveAllIfAbsent(rows, faults, recs[..|recs| - 1]);
      var rc := recs[|recs| - 1];
      var saved := SaveIfAbsent(before.rows, faults, rc);
      Outcome(before.emitted + (if saved.err != Some(InsertFailed) then [rc] else []), saved.rows)
  }

  /** The discovery stage with the insert-if-absent gate. */
  function DiscoveredIfAbsent(rows: seq<RadicalCharacter>, faults: Faults, actions: seq<string>, ajax: Endpoint): Outcome
  {
    SaveAllIfAbsent(rows, faults, Candidates(actions, ajax))
  }

  /** The insert-if-absent gate: it inserts the one record exactly when the
      existence check succeeded and found no row with its URL and the insert
      succeeded; otherwise the table is unchanged. */
  lemma SaveIfAbsentGate(rows: seq<RadicalCharacter>, faults: Faults, rc: RadicalCharacter)
    ensures SaveIfAbsent(rows, faults, rc).rows == rows || SaveIfAbsent(rows, faults, rc).rows == rows + [rc]
    ensures SaveIfAbsent(rows, faults, rc).rows == rows + [rc] <==>
      rc.url !in faults.urlCounts && rc.url !in URLs(rows) && rc.url !in faults.inserts
  {
    assert |rows + [rc]| != |rows|;
  }

  /** Dedup invariant: saving a record twice, starting from a table without
      its URL and with no failing query for it, stores exactly one row with
      that URL; the second existence check counts at least one and skips the
      insert. */
  lemma SaveIfAbsentTwice(rows: seq<RadicalCharacter>, faults: Faults, rc: RadicalCharacter)
    requires CountURL(rows, rc.url) == 0
    requires rc.url !in faults.urlCounts && rc.url !in faults.inserts
    ensures var once := SaveIfAbsent(rows, faults, rc).rows;
      && CountURL(once, rc.url) >= 1
      && SaveIfAbsent(once, faults, rc).rows == once
      && CountURL(SaveIfAbsent(once, faults, rc).rows, rc.url) == 1
  {
    CountURLAppend(rows, rc, rc.url);
  }

  /** No URL is stored twice. */
  predicate UniqueURLs(rows: seq<RadicalCharacter>)
  {
    forall i, j :: 0 <= i < j < |rows| ==> rows[i].url != rows[j].url
  }

  /** The insert-if-absent gate keeps every URL unique over any run of saves. */
  lemma {:induction false} SaveAllIfAbsentUnique(rows: seq<RadicalCharacter>, faults: Faults, recs: seq<RadicalCharacter>)
    requires UniqueURLs(rows)
    ensures UniqueURLs(SaveAllIfAbsent(rows, faults, recs).rows)
    decreases |recs|
  {
    if recs != [] {
      var before := SaveAllIfAbsent(rows, faults, recs[..|recs| - 1]).rows;
      var rc := recs[|recs| - 1];
      SaveAllIfAbsentUnique(rows, faults, recs[..|recs| - 1]);
      var after := SaveIfAbsent(before, faults, rc).rows;
      if after != before {
        assert after == before + [rc];
        forall i, j | 0 <= i < j < |after|
          ensures after[i].url != after[j].url
        {
          if j == |before| {
            assert before[i].url in URLs(before);
          }
        }
      }
    }
  }

  /** With the insert-if-absent gate a record whose existence check fails is
      still sent. */
  lemma CountErrorStillSent(rows: seq<RadicalCharacter>, faults: Faults, rc: RadicalCharacter)
    requires rc.url in faults.urlCounts
    ensures SaveAllIfAbsent(rows, faults, [rc]).emitted == [rc]
  {
    assert [rc][..0] == [];
  }

  /** The two-anchor scenario with the insert-if-absent gate: on an empty
      store with no faults, "A" decoding to one record and "B" failing, the
      record is sent once and exactly one row is stored. */
  lemma IfAbsentScenario(rec: RadicalCharacter)
    ensures var ajax: Endpoint := map["A" := [RadicalUnion([rec])]];
      && Sent(DiscoveredIfAbsent([], NoFaults, ["A", "B"], ajax).emitted) + [None] == [Some(rec), None]
      && DiscoveredIfAbsent([], NoFaults, ["A", "B"], ajax).rows == [rec]
  {
    ScenarioCandidates(rec);
    assert SaveIfAbsent([], NoFaults, rec) == Saved(None, [rec]);
    assert [rec][..0] == [];
    assert SaveAllIfAbsent([], NoFaults, [rec]) == Outcome([rec], [rec]);
    assert Sent([rec]) == Sent([]) + [Some(rec)];
  }
}
