/** The orchestrator of excavator.go: the Excavator object, its settings and
    phase-gated channels, and the three sequential stages (findRadical,
    parseRadical, saveRadicalCharacter). A stage's channel is modelled by the
    sequence of messages it sends, returned by the stage. */
module Excavation {
  import opened Records
  import opened Store
  import opened Replay
  import opened Discovery
  import opened Sequences

  newtype int64 = x: int | -0x8000_0000_0000_0000 <= x < 0x8000_0000_0000_0000

  /** The run step: which pipeline phase is selected. */
  type Step = int

  const StepAll: Step := 0
  const StepRadical: Step := 1
  const StepCharacter: Step := 2

  /** http.Header: header names to their values. */
  type Header = map<string, seq<string>>

  /** A channel's identity. What travels on it is the output of its stage. */
  class Channel<T> {
    constructor ()
    {
    }
  }

  class Excavator {
    var workspace: string
    var url: string
    var header: Option<Header>
    var db: Database?
    var radical: Channel?<RadicalCharacter>
    var step: Step
    var limit: int64
    var character: Channel?<Character>

    /** New: the given URL and workspace, a page size of 50 and everything
        else unset; the step is StepAll, so no channel is exposed. */
    constructor New(url: string, workspace: string)
      ensures this.url == url && this.workspace == workspace
      ensures Limit() == 50 && header == None && Header() == map[]
      ensures db == null && radical == null && character == null
      ensures step == StepAll && Radical() == null && Character() == null
    {
      this.url := url;
      this.workspace := workspace;
      this.limit := 50;
      this.header := None;
      this.db := null;
      this.radical := null;
      this.step := StepAll;
      this.character := null;
    }

    /** Limit: the page size the replay stage reads with. */
    function Limit(): (l: int64)
      reads this
      ensures l == limit
    {
      limit
    }

    method SetLimit(limit: int64)
      modifies this`limit
      ensures Limit() == limit
    {
      this.limit := limit;
    }

    /** DB: the store the stages read and write. */
    function DB(): (d: Database?)
      reads this
      ensures d == db
    {
      db
    }

    method SetDB(db: Database?)
      modifies this`db
      ensures DB() == db
    {
      this.db := db;
    }

    /** Header: the stored header, or a new empty one when none is stored. */
    function Header(): (h: Header)
      reads this
      ensures header == None ==> h == map[]
      ensures header != None ==> h == header.value
    {
      match header
      case None => map[]
      case Some(stored) => stored
    }

    /** SetHeader stores the header as given; `None` is the nil header. */
    method SetHeader(header: Option<Header>)
      modifies this`header
      ensures this.header == header
      ensures Header() == if header == None then map[] else header.value
    {
      this.header := header;
    }

    /** PreRun, reduced to what the pipeline relies on: the store opened by
        default when none was set, and two new channels. */
    method PreRun(engine: Database)
      modifies this`db, this`radical, this`character
      ensures db == if old(db) == null then engine else old(db)
      ensures radical != null && fresh(radical)
      ensures character != null && fresh(character)
    {
      if db == null {
        db := engine;
      }
      radical := new Channel<RadicalCharacter>();
      character := new Channel<Character>();
    }

    /** Radical: the radical channel, exposed only in step StepRadical. */
    function Radical(): (c: Channel?<RadicalCharacter>)
      reads this
      ensures c != null ==> step == StepRadical && c == radical
      ensures step == StepRadical ==> c == radical
    {
      if step == StepRadical then radical else null
    }

    /** Character: the character channel, exposed only in step StepCharacter. */
    function Character(): (c: Channel?<Character>)
      reads this
      ensures c != null ==> step == StepCharacter && c == character
      ensures step == StepCharacter ==> c == character
    {
      if step == StepCharacter then character else null
    }

    /** findRadical: reads the stored radicals page by page and sends them,
        then nil; the deferred send of nil happens on every exit. */
    method FindRadical() returns (out: seq<Option<RadicalCharacter>>)
      requires db != null && Ends(db.rows, db.faults, limit as int)
      ensures out == Replayed(db.rows, db.faults, limit as int)
      ensures Terminated(out)
    {
      var total := db.Count();
      if total.Err? || total.value == 0 {
        out := [None];
        return;
      }
      var n := total.value;
      var lim := Limit() as int;
      ghost var rows, pages := db.rows, db.faults.pages;
      ghost var emitted: seq<RadicalCharacter> := [];
      out := [];
      var x: nat := 0;
      while x < n
        invariant 0 <= x
        invariant out == Sent(emitted)
        invariant emitted + Gather(rows, pages, lim, Offsets(n, lim, x)) == Emitted(rows, db.faults, lim)
        decreases n - x
      {
        ghost var before := emitted;
        ReplayAdvance(rows, pages, lim, n, x, before, Emitted(rows, db.faults, lim));
        var page := db.Find(lim, x);
        if page.Ok? {
          var rc := page.value;
          for i := 0 to |rc|
            invariant emitted == before + rc[..i]
            invariant out == Sent(emitted)
          {
            SnocSlice(before, rc, i);
            SentPush(emitted, rc[i]);
            out := out + [Some(rc[i])];
            emitted := emitted + [rc[i]];
          }
          WholeSlice(before, rc);
        } else {
          AppendNil(before);
        }
        x := x + lim;
      }
      AppendNil(emitted);
      out := out + [None];
      ReplayTerminated(rows, db.faults, lim);
    }

    /** saveRadicalCharacter as written: counts the rows with the record's URL,
        returns the count's error, returns nil without inserting when the count
        is zero, and otherwise inserts the record and returns the insert's
        result. */
    method SaveRadicalCharacter(rc: RadicalCharacter) returns (e: Option<DbError>)
      requires db != null
      modifies db
      ensures Saved(e, db.rows) == Save(old(db.rows), db.faults, rc)
    {
      var i := db.CountWhereURL(rc.url);
      if i.Err? {
        return Some(i.error);
      }
      if i.value == 0 {
        return None;
      }
      e := db.InsertOne(rc);
    }

    /** saveRadicalCharacter with the insert-if-absent gate its purpose asks
        for: the insert happens only when the URL count is zero. */
    method SaveRadicalCharacterIfAbsent(rc: RadicalCharacter) returns (e: Option<DbError>)
      requires db != null
      modifies db
      ensures Saved(e, db.rows) == SaveIfAbsent(old(db.rows), db.faults, rc)
    {
      var i := db.CountWhereURL(rc.url);
      if i.Err? {
        return Some(i.error);
      }
      if i.value > 0 {
        return None;
      }
      e := db.InsertOne(rc);
    }

    /** parseRadical: for each anchor in document order, skips an empty action,
        posts the token, skips a failed reply, and saves each decoded record in
        union order and array order, sending it when the save returned nil;
        finally sends nil. */
    method ParseRadical(actions: seq<string>, ajax: Endpoint) returns (out: seq<Option<RadicalCharacter>>)
      requires db != null
      modifies db
      ensures out == DiscoveryOutput(old(db.rows), db.faults, actions, ajax)
      ensures db.rows == Discovered(old(db.rows), db.faults, actions, ajax).rows
      ensures Terminated(out)
    {
      ghost var rows0 := db.rows;
      ghost var seen: seq<RadicalCharacter> := [];
      out := [];
      for k := 0 to |actions|
        invariant seen == Candidates(actions[..k], ajax)
        invariant out == Sent(SaveAll(rows0, db.faults, seen).emitted)
        invariant db.rows == SaveAll(rows0, db.faults, seen).rows
      {
        ghost var done := seen;
        assert actions[..k + 1] == actions[..k] + [actions[k]];
        CandidatesPush(actions[..k], actions[k], ajax);
        var da := actions[k];
        if da != "" && da in ajax {
          var unions := ajax[da];
          AppendNil(done);
          for j := 0 to |unions|
            invariant seen == done + Flatten(unions[..j])
            invariant out == Sent(SaveAll(rows0, db.faults, seen).emitted)
            invariant db.rows == SaveAll(rows0, db.faults, seen).rows
          {
            var arr := unions[j].radicalCharacterArray;
            ghost var prior := seen;
            AppendNil(prior);
            for i := 0 to |arr|
              invariant seen == prior + arr[..i]
              invariant out == Sent(SaveAll(rows0, db.faults, seen).emitted)
              invariant db.rows == SaveAll(rows0, db.faults, seen).rows
            {
              var rc := arr[i];
              SaveAllSnoc(rows0, db.faults, seen, rc);
              SnocSlice(prior, arr, i);
              ghost var saved := Save(db.rows, db.faults, rc);
              var e := SaveRadicalCharacter(rc);
              assert e == saved.err && db.rows == saved.rows;
              if e == None {
                out := out + [Some(rc)];
              }
              seen := seen + [rc];
            }
            WholeSlice(prior, arr);
            FlattenSnoc(unions, j);
            Assoc(done, Flatten(unions[..j]), arr);
          }
          assert unions[..|unions|] == unions;
        } else {
          AppendNil(done);
        }
      }
      assert actions[..|actions|] == actions;
      SentTerminated(Discovered(rows0, db.faults, actions, ajax).emitted);
      out := out + [None];
    }
  }

  /** The two channels are never exposed together; in any step other than
      StepRadical and StepCharacter (StepAll among them) neither is. */
  lemma ChannelsExclusive(e: Excavator)
    ensures e.Radical() == null || e.Character() == null
    ensures e.step != StepRadical && e.step != StepCharacter ==> e.Radical() == null && e.Character() == null
    ensures e.Radical() != null <==> e.step == StepRadical && e.radical != null
    ensures e.Character() != null <==> e.step == StepCharacter && e.character != null
  {
  }
}
