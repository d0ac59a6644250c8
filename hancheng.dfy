/** analyzeRadical of radical_hancheng.go: turning the HanCheng radical index
    page into radical records. The parsed page is abstracted as its groups
    (the `li.mui-table-view-cell.mui-collapse` items under
    `#segmentedControls > ul`), in document order. */
module HanCheng {
  import opened Records
  import opened Sequences

  /** One group of the index page: the text of its `a.mui-navigate-right`
      heading (the stroke-count label) and, in document order, the
      `data-action` attribute of each `div > a[data-action]` anchor in it.
      The selector only matches anchors that carry the attribute, so a page
      yields `Some` for every anchor; `None` is kept because Attr's lookup
      can fail, and the code reads that case as "" too. */
  datatype Group = Group(strokes: string, anchors: seq<Option<string>>)

  /** Attr("data-action") with its "found" result ignored: a missing
      attribute reads as the empty string. */
  function Action(a: Option<string>): string
  {
    match a
    case None => ""
    case Some(v) => v
  }

  /** The record analyzeRadical builds for one anchor: only BiHua and BuShou
      are set; URL keeps its zero value. */
  function Record(strokes: string, action: string): RadicalCharacter
  {
    RadicalCharacter(strokes, action, "")
  }

  /** The records appended for the anchors of one group. */
  function GroupRecords(strokes: string, anchors: seq<Option<string>>): seq<RadicalCharacter>
  {
    if anchors == [] then []
    else
      var action := Action(anchors[|anchors| - 1]);
      GroupRecords(strokes, anchors[..|anchors| - 1]) + (if action != "" then [Record(strokes, action)] else [])
  }

  /** The records analyzeRadical returns for the whole page. */
  function Analyzed(doc: seq<Group>): seq<RadicalCharacter>
  {
    if doc == [] then []
    else Analyzed(doc[..|doc| - 1]) + GroupRecords(doc[|doc| - 1].strokes, doc[|doc| - 1].anchors)
  }

  /** analyzeRadical: for each group, reads its label, then for each anchor
      builds a record and appends it when its action is non-empty. */
  method AnalyzeRadical(doc: seq<Group>) returns (rc: seq<RadicalCharacter>)
    ensures rc == Analyzed(doc)
  {
    rc := [];
    for g := 0 to |doc|
      invariant rc == Analyzed(doc[..g])
    {
      var bihua := doc[g].strokes;
      var anchors := doc[g].anchors;
      ghost var before := rc;
      AppendNil(before);
      for i := 0 to |anchors|
        invariant rc == before + GroupRecords(bihua, anchors[..i])
      {
        var buShou := Action(anchors[i]);
        GroupRecordsSnoc(bihua, anchors, i);
        if buShou != "" {
          Assoc(before, GroupRecords(bihua, anchors[..i]), [Record(bihua, buShou)]);
          rc := rc + [Record(bihua, buShou)];
        } else {
          AppendNil(GroupRecords(bihua, anchors[..i]));
        }
      }
      assert anchors[..|anchors|] == anchors;
      AnalyzedSnoc(doc, g);
    }
    assert doc[..|doc|] == doc;
  }

  lemma GroupRecordsSnoc(strokes: string, anchors: seq<Option<string>>, i: nat)
    requires i < |anchors|
    ensures var action := Action(anchors[i]);
      GroupRecords(strokes, anchors[..i + 1])
        == GroupRecords(strokes, anchors[..i]) + (if action != "" then [Record(strokes, action)] else [])
  {
    assert anchors[..i + 1][..i] == anchors[..i];
  }

  lemma AnalyzedSnoc(doc: seq<Group>, g: nat)
    requires g < |doc|
    ensures Analyzed(doc[..g + 1]) == Analyzed(doc[..g]) + GroupRecords(doc[g].strokes, doc[g].anchors)
  {
    assert doc[..g + 1][..g] == doc[..g];
  }

  /** The non-empty actions among `actions`, in order. */
  function Kept(actions: seq<string>): seq<string>
  {
    if actions == [] then []
    else (if actions[0] != "" then [actions[0]] else []) + Kept(actions[1..])
  }

  /** The action of each anchor. */
  function Actions(anchors: seq<Option<string>>): seq<string>
  {
    seq(|anchors|, i requires 0 <= i < |anchors| => Action(anchors[i]))
  }

  /** One record per action, all with the same label. */
  function Labelled(strokes: string, actions: seq<string>): seq<RadicalCharacter>
  {
    seq(|actions|, i requires 0 <= i < |actions| => Record(strokes, actions[i]))
  }

  lemma {:induction false} KeptAppend(a: seq<string>, b: seq<string>)
    ensures Kept(a + b) == Kept(a) + Kept(b)
    decreases |a|
  {
    if a == [] {
      assert a + b == b;
    } else {
      assert (a + b)[0] == a[0];
      assert (a + b)[1..] == a[1..] + b;
      KeptAppend(a[1..], b);
      var head: seq<string> := if a[0] != "" then [a[0]] else [];
      Assoc(head, Kept(a[1..]), Kept(b));
    }
  }

  lemma LabelledAppend(strokes: string, a: seq<string>, b: seq<string>)
    ensures Labelled(strokes, a + b) == Labelled(strokes, a) + Labelled(strokes, b)
  {
  }

  /** A group yields exactly one record per anchor with a non-empty action,
      in anchor order, each labelled with the group's label and with an
      empty URL. */
  lemma {:induction false} GroupRecordsExact(strokes: string, anchors: seq<Option<string>>)
    ensures GroupRecords(strokes, anchors) == Labelled(strokes, Kept(Actions(anchors)))
    decreases |anchors|
  {
    if anchors != [] {
      var init, last := anchors[..|anchors| - 1], anchors[|anchors| - 1];
      GroupRecordsExact(strokes, init);
      var action := Action(last);
      assert Actions(anchors) == Actions(init) + [action];
      KeptAppend(Actions(init), [action]);
      var tail: seq<string> := if action != "" then [action] else [];
      assert Kept([action]) == tail by {
        assert [action][1..] == [];
      }
      LabelledAppend(strokes, Kept(Actions(init)), tail);
    }
  }

  /** Every kept action is non-empty and is one of the actions. */
  lemma {:induction false} KeptSound(actions: seq<string>)
    ensures forall s :: s in Kept(actions) ==> s != "" && s in actions
    decreases |actions|
  {
    if actions != [] {
      KeptSound(actions[1..]);
      forall s | s in Kept(actions)
        ensures s != "" && s in actions
      {
        if s !in Kept(actions[1..]) {
          assert s == actions[0];
        } else {
          assert s in actions[1..];
        }
      }
    }
  }

  /** Every non-empty action is kept. */
  lemma {:induction false} KeptComplete(actions: seq<string>, s: string)
    requires s in actions && s != ""
    ensures s in Kept(actions)
    decreases |actions|
  {
    if actions[0] != s {
      assert s in actions[1..];
      KeptComplete(actions[1..], s);
    }
  }

  /** Kept actions stay in their order. */
  lemma {:induction false} KeptInOrder(actions: seq<string>)
    ensures IsSubseq(Kept(actions), actions)
    decreases |actions|
  {
    if actions != [] {
      KeptInOrder(actions[1..]);
      var head: seq<string> := if actions[0] != "" then [actions[0]] else [];
      assert actions == [actions[0]] + actions[1..];
      SubseqRefl([actions[0]]);
      SubseqNil([actions[0]]);
      SubseqConcat(head, [actions[0]], Kept(actions[1..]), actions[1..]);
    }
  }

  /** Groups are handled in document order: the page `a + b` yields the
      records of `a`, then those of `b`. */
  lemma {:induction false} AnalyzedAppend(a: seq<Group>, b: seq<Group>)
    ensures Analyzed(a + b) == Analyzed(a) + Analyzed(b)
    decreases |b|
  {
    if b == [] {
      assert a + b == a;
      AppendNil(Analyzed(a));
    } else {
      var init, last := b[..|b| - 1], b[|b| - 1];
      assert (a + b)[..|a + b| - 1] == a + init;
      assert (a + b)[|a + b| - 1] == last;
      AnalyzedAppend(a, init);
      Assoc(Analyzed(a), Analyzed(init), GroupRecords(last.strokes, last.anchors));
    }
  }

  /** The number of anchors with a non-empty action on the page. */
  function NonEmptyAnchors(doc: seq<Group>): nat
  {
    if doc == [] then 0 else |Kept(Actions(doc[0].anchors))| + NonEmptyAnchors(doc[1..])
  }

  /** One record per anchor with a non-empty action. */
  lemma {:induction false} AnalyzedCount(doc: seq<Group>)
    ensures |Analyzed(doc)| == NonEmptyAnchors(doc)
    decreases |doc|
  {
    if doc != [] {
      assert doc == [doc[0]] + doc[1..];
      AnalyzedAppend([doc[0]], doc[1..]);
      AnalyzedCount(doc[1..]);
      assert [doc[0]][..0] == [];
      GroupRecordsExact(doc[0].strokes, doc[0].anchors);
    }
  }

  /** `r` is a record group `g` can yield: its BiHua is the group's label
      and its BuShou the action of one of the group's anchors. */
  predicate FromGroup(r: RadicalCharacter, g: Group)
  {
    r.biHua == g.strokes && r.buShou in Actions(g.anchors)
  }

  /** Every record of one group has a non-empty BuShou taken from one of the
      group's anchors, the group's label and an empty URL. */
  lemma GroupRecordsSound(g: Group)
    ensures forall r :: r in GroupRecords(g.strokes, g.anchors) ==> r.buShou != "" && r.url == "" && FromGroup(r, g)
  {
    GroupRecordsExact(g.strokes, g.anchors);
    var kept := Kept(Actions(g.anchors));
    KeptSound(Actions(g.anchors));
    forall r | r in GroupRecords(g.strokes, g.anchors)
      ensures r.buShou != "" && r.url == "" && FromGroup(r, g)
    {
      var i :| 0 <= i < |kept| && r == Labelled(g.strokes, kept)[i];
      assert kept[i] in kept;
    }
  }

  /** Soundness: every record carries a non-empty BuShou that is the action
      of an anchor of some group, that group's label as its BiHua, and an
      empty URL. */
  lemma {:induction false} AnalyzedSound(doc: seq<Group>)
    ensures forall r :: r in Analyzed(doc) ==>
      r.buShou != "" && r.url == "" && exists g :: g in doc && FromGroup(r, g)
    decreases |doc|
  {
    if doc != [] {
      var init, last := doc[..|doc| - 1], doc[|doc| - 1];
      AnalyzedSound(init);
      GroupRecordsSound(last);
      forall r | r in Analyzed(doc)
        ensures r.buShou != "" && r.url == "" && exists g :: g in doc && FromGroup(r, g)
      {
        if r in Analyzed(init) {
          var g :| g in init && FromGroup(r, g);
          assert g in doc;
        } else {
          assert last in doc;
        }
      }
    }
  }

  /** Completeness: every anchor with a non-empty action yields its record. */
  lemma AnalyzedComplete(doc: seq<Group>, k: nat, i: nat)
    requires k < |doc| && i < |doc[k].anchors| && Action(doc[k].anchors[i]) != ""
    ensures Record(doc[k].strokes, Action(doc[k].anchors[i])) in Analyzed(doc)
  {
    var g := doc[k];
    var action := Action(g.anchors[i]);
    assert action == Actions(g.anchors)[i];
    KeptComplete(Actions(g.anchors), action);
    var kept := Kept(Actions(g.anchors));
    var j :| 0 <= j < |kept| && kept[j] == action;
    GroupRecordsExact(g.strokes, g.anchors);
    assert Record(g.strokes, action) == GroupRecords(g.strokes, g.anchors)[j];
    assert doc == doc[..k] + [g] + doc[k + 1..];
    AnalyzedAppend(doc[..k] + [g], doc[k + 1..]);
    AnalyzedAppend(doc[..k], [g]);
    assert [g][..0] == [];
    assert Analyzed([g]) == GroupRecords(g.strokes, g.anchors);
  }
}
