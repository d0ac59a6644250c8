/** The values that travel through the excavator's pipeline. */
module Records {

  datatype Option<+T> = None | Some(value: T)

  /** A radical (category) row: its stroke-count label `BiHua`, its radical
      token `BuShou` and the `URL` that identifies it in the store. */
  datatype RadicalCharacter = RadicalCharacter(biHua: string, buShou: string, url: string)

  /** One union of the discovery endpoint's decoded reply. */
  datatype RadicalUnion = RadicalUnion(radicalCharacterArray: seq<RadicalCharacter>)

  /** A character (item) row; only the URL that identifies it is modelled. */
  datatype Character = Character(url: string)

  /** The messages a stage sends for the records `s`: each one as a non-nil
      value, in order. `None` stands for nil. */
  function Sent(s: seq<RadicalCharacter>): seq<Option<RadicalCharacter>>
  {
    if s == [] then [] else Sent(s[..|s| - 1]) + [Some(s[|s| - 1])]
  }

  /** A stage's complete output: non-nil values, then the nil sentinel,
      exactly once, as the last message. */
  predicate Terminated(out: seq<Option<RadicalCharacter>>)
  {
    && |out| > 0
    && out[|out| - 1] == None
    && forall i :: 0 <= i < |out| - 1 ==> out[i] != None
  }

  lemma {:induction false} SentAppend(a: seq<RadicalCharacter>, b: seq<RadicalCharacter>)
    ensures Sent(a + b) == Sent(a) + Sent(b)
    decreases |b|
  {
    if b == [] {
      assert a + b == a;
    } else {
      assert (a + b)[..|a + b| - 1] == a + b[..|b| - 1];
      SentAppend(a, b[..|b| - 1]);
    }
  }

  /** Sending one more record appends one message. */
  lemma SentPush(s: seq<RadicalCharacter>, r: RadicalCharacter)
    ensures Sent(s + [r]) == Sent(s) + [Some(r)]
  {
    assert (s + [r])[..|s|] == s;
  }

  /** Each record is sent as itself, non-nil, in its place. */
  lemma {:induction false} SentAt(s: seq<RadicalCharacter>)
    ensures |Sent(s)| == |s|
    ensures forall i :: 0 <= i < |s| ==> Sent(s)[i] == Some(s[i])
    decreases |s|
  {
    if s != [] {
      SentAt(s[..|s| - 1]);
    }
  }

  /** Sending some records and then nil yields a terminated output that
      carries exactly those records. */
  lemma SentTerminated(s: seq<RadicalCharacter>)
    ensures Terminated(Sent(s) + [None])
    ensures |Sent(s) + [None]| == |s| + 1
    ensures forall i :: 0 <= i < |s| ==> (Sent(s) + [None])[i] == Some(s[i])
  {
    SentAt(s);
  }
}
