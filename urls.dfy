/** The URL helpers of excavator.go: `TrimSlash` and `URL`. Go strings are
    byte strings; here they are sequences of characters. The two agree on
    every rule below, since '/' is one byte and never part of a longer UTF-8
    sequence, and a one-character string that is not "/" is never changed. */
module Urls {

  /** TrimSlash: a string of length at most 1 comes back unchanged; otherwise
      one trailing '/' is dropped if present, and then one leading '/'. */
  function TrimSlash(s: string): (r: string)
    ensures |s| <= 1 ==> r == s
    ensures |s| - 2 <= |r| <= |s|
  {
    if |s| > 1 then
      var t := if s[|s| - 1] == '/' then s[..|s| - 1] else s;
      if t[0] == '/' then t[1..] else t
    else
      s
  }

  /** The slash TrimSlash may remove at the front of `s`. */
  function Lead(s: string): string
    requires |s| > 0
  {
    if s[0] == '/' then "/" else ""
  }

  /** The slash TrimSlash may remove at the back of `s`. */
  function Trail(s: string): string
    requires |s| > 0
  {
    if s[|s| - 1] == '/' then "/" else ""
  }

  /** Putting back the slashes TrimSlash removed gives the input again: it
      removes at most one '/' at each end and nothing in between. */
  lemma TrimSlashRestores(s: string)
    requires |s| > 1
    ensures Lead(s) + TrimSlash(s) + Trail(s) == s
  {
    var t := if s[|s| - 1] == '/' then s[..|s| - 1] else s;
    assert t + Trail(s) == s;
    assert Lead(s) + TrimSlash(s) == t;
  }

  /** TrimSlash leaves alone a string that neither starts nor ends with '/'. */
  lemma TrimSlashKeepsUnslashed(s: string)
    requires |s| > 0 && s[0] != '/' && s[|s| - 1] != '/'
    ensures TrimSlash(s) == s
  {
  }

  /** The prefix as URL uses it: one trailing '/' is dropped, but only from a
      prefix longer than one character (so "/" stays "/"). */
  function BasePrefix(prefix: string): (p: string)
    ensures p != prefix <==> |prefix| > 1 && prefix[|prefix| - 1] == '/'
    ensures p != prefix ==> p + "/" == prefix
  {
    if |prefix| > 1 && prefix[|prefix| - 1] == '/' then prefix[..|prefix| - 1] else prefix
  }

  /** strings.Join: the parts with `sep` between each neighbouring pair. */
  function Join(parts: seq<string>, sep: string): string
  {
    if |parts| == 0 then ""
    else if |parts| == 1 then parts[0]
    else Join(parts[..|parts| - 1], sep) + sep + parts[|parts| - 1]
  }

  /** Each segment after TrimSlash. */
  function Trimmed(uris: seq<string>): seq<string>
  {
    seq(|uris|, i requires 0 <= i < |uris| => TrimSlash(uris[i]))
  }

  /** What URL(prefix, uris...) returns. */
  function Joined(prefix: string, uris: seq<string>): string
  {
    Join([BasePrefix(prefix)] + Trimmed(uris), "/")
  }

  lemma JoinedNoSegments(prefix: string)
    ensures Joined(prefix, []) == BasePrefix(prefix)
  {
    assert [BasePrefix(prefix)] + Trimmed([]) == [BasePrefix(prefix)];
  }

  /** One more segment adds one '/' and the trimmed segment at the end. */
  lemma JoinedSnoc(prefix: string, uris: seq<string>, u: string)
    ensures Joined(prefix, uris + [u]) == Joined(prefix, uris) + "/" + TrimSlash(u)
  {
    var parts := [BasePrefix(prefix)] + Trimmed(uris);
    var parts' := [BasePrefix(prefix)] + Trimmed(uris + [u]);
    assert Trimmed(uris + [u]) == Trimmed(uris) + [TrimSlash(u)];
    assert parts' == parts + [TrimSlash(u)];
    assert parts'[..|parts'| - 1] == parts;
  }

  /** The result begins with the (trailing-slash-trimmed) prefix. */
  lemma {:induction false} JoinedStartsWithPrefix(prefix: string, uris: seq<string>)
    ensures BasePrefix(prefix) <= Joined(prefix, uris)
    decreases |uris|
  {
    if uris == [] {
      JoinedNoSegments(prefix);
    } else {
      var init := uris[..|uris| - 1];
      assert uris == init + [uris[|uris| - 1]];
      JoinedSnoc(prefix, init, uris[|uris| - 1]);
      JoinedStartsWithPrefix(prefix, init);
    }
  }

  function TotalLength(segs: seq<string>): nat
  {
    if segs == [] then 0 else TotalLength(segs[..|segs| - 1]) + |segs[|segs| - 1]|
  }

  /** The number of '/' characters in `s`. */
  function Slashes(s: string): nat
  {
    if s == [] then 0 else Slashes(s[..|s| - 1]) + (if s[|s| - 1] == '/' then 1 else 0)
  }

  function TotalSlashes(segs: seq<string>): nat
  {
    if segs == [] then 0 else TotalSlashes(segs[..|segs| - 1]) + Slashes(segs[|segs| - 1])
  }

  lemma {:induction false} SlashesAppend(a: string, b: string)
    ensures Slashes(a + b) == Slashes(a) + Slashes(b)
    decreases |b|
  {
    if b == [] {
      assert a + b == a;
    } else {
      var init := b[..|b| - 1];
      assert (a + b)[..|a + b| - 1] == a + init;
      SlashesAppend(a, init);
    }
  }

  /** The result is the prefix, one '/' per segment, and the trimmed segments. */
  lemma {:induction false} JoinedLength(prefix: string, uris: seq<string>)
    ensures |Joined(prefix, uris)| == |BasePrefix(prefix)| + |uris| + TotalLength(Trimmed(uris))
    decreases |uris|
  {
    if uris == [] {
      JoinedNoSegments(prefix);
    } else {
      var init, u := uris[..|uris| - 1], uris[|uris| - 1];
      assert uris == init + [u];
      JoinedSnoc(prefix, init, u);
      JoinedLength(prefix, init);
      TrimmedSnoc(uris);
    }
  }

  /** Trimming a sequence of segments, one segment at a time. */
  lemma TrimmedSnoc(uris: seq<string>)
    requires uris != []
    ensures Trimmed(uris)[..|uris| - 1] == Trimmed(uris[..|uris| - 1])
    ensures TotalSlashes(Trimmed(uris)) == TotalSlashes(Trimmed(uris[..|uris| - 1])) + Slashes(TrimSlash(uris[|uris| - 1]))
    ensures TotalLength(Trimmed(uris)) == TotalLength(Trimmed(uris[..|uris| - 1])) + |TrimSlash(uris[|uris| - 1])|
  {
    assert Trimmed(uris)[..|uris| - 1] == Trimmed(uris[..|uris| - 1]);
  }

  /** URL inserts exactly one separator per segment: the '/' characters of the
      result are those of the prefix, those left in the trimmed segments, and
      |uris| more. */
  lemma {:induction false} JoinedSeparators(prefix: string, uris: seq<string>)
    ensures Slashes(Joined(prefix, uris)) == Slashes(BasePrefix(prefix)) + |uris| + TotalSlashes(Trimmed(uris))
    decreases |uris|
  {
    if uris == [] {
      JoinedNoSegments(prefix);
    } else {
      var init, u := uris[..|uris| - 1], uris[|uris| - 1];
      assert uris == init + [u];
      JoinedSnoc(prefix, init, u);
      JoinedSeparators(prefix, init);
      var j := Joined(prefix, init);
      SlashesAppend(j, "/");
      SlashesAppend(j + "/", TrimSlash(u));
      assert Slashes("/") == 1 by {
        assert "/"[..0] == [];
      }
      TrimmedSnoc(uris);
    }
  }

  /** URL (excavator.go): collects the prefix and the trimmed segments in a
      list, then joins them with '/'. */
  method URL(prefix: string, uris: seq<string>) returns (r: string)
    ensures r == Joined(prefix, uris)
  {
    var p := prefix;
    var end := |prefix|;
    if end > 1 && prefix[end - 1] == '/' {
      p := prefix[..end - 1];
    }
    var parts := [p];
    for i := 0 to |uris|
      invariant parts == [BasePrefix(prefix)] + Trimmed(uris[..i])
    {
      assert Trimmed(uris[..i + 1]) == Trimmed(uris[..i]) + [TrimSlash(uris[i])];
      parts := parts + [TrimSlash(uris[i])];
    }
    assert uris[..|uris|] == uris;
    r := Join(parts, "/");
  }
}
