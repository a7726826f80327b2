/** Path patterns: `**` stands for any run of whole segments, every other pattern segment for
    exactly one segment. How one segment is matched is the parameter `one`. */
module Matchers {
  import opened Outcomes

  /** `fnmatch.fnmatchcase(name, pattern)`. */
  type SegmentMatch = (string, string) -> bool

  const ANY := "**"

  // --- What a pattern means --------------------------------------------------------------------

  ghost predicate FitsOne(one: SegmentMatch, head: string, cut: seq<string>) {
    head == "**" || (|cut| == 1 && one(cut[0], head))
  }

  /** Each pattern segment takes one consecutive piece. */
  ghost predicate Fits(one: SegmentMatch, pat: seq<string>, cuts: seq<seq<string>>) {
    |cuts| == |pat| && forall k | 0 <= k < |pat| :: FitsOne(one, pat[k], cuts[k])
  }

  ghost function Joined(cuts: seq<seq<string>>): seq<string> {
    if cuts == [] then [] else cuts[0] + Joined(cuts[1..])
  }

  /** The segments can be cut into consecutive pieces that fit the pattern. */
  ghost predicate Matching(one: SegmentMatch, pat: seq<string>, parts: seq<string>) {
    exists cuts :: Fits(one, pat, cuts) && Joined(cuts) == parts
  }

  lemma {:induction false} JoinedOfConcat(a: seq<seq<string>>, b: seq<seq<string>>)
    ensures Joined(a + b) == Joined(a) + Joined(b)
  {
    if a == [] {
      assert a + b == b;
    } else {
      JoinedOfConcat(a[1..], b);
      assert (a + b)[1..] == a[1..] + b && (a + b)[0] == a[0];
      assert Joined(a + b) == a[0] + (Joined(a[1..]) + Joined(b));
    }
  }

  lemma Glue(one: SegmentMatch, p: seq<string>, q: seq<string>, front: seq<string>, back: seq<string>)
    requires Matching(one, p, front) && Matching(one, q, back)
    ensures Matching(one, p + q, front + back)
  {
    var a :| Fits(one, p, a) && Joined(a) == front;
    var b :| Fits(one, q, b) && Joined(b) == back;
    JoinedOfConcat(a, b);
    assert Fits(one, p + q, a + b);
  }

  lemma Cut(one: SegmentMatch, p: seq<string>, q: seq<string>, parts: seq<string>) returns (i: nat)
    requires Matching(one, p + q, parts)
    ensures i <= |parts| && Matching(one, p, parts[..i]) && Matching(one, q, parts[i..])
  {
    var c :| Fits(one, p + q, c) && Joined(c) == parts;
    var a, b := c[..|p|], c[|p|..];
    assert c == a + b;
    JoinedOfConcat(a, b);
    assert Fits(one, p, a) by {
      forall k | 0 <= k < |p| ensures FitsOne(one, p[k], a[k]) {
        assert FitsOne(one, (p + q)[k], c[k]);
      }
    }
    assert Fits(one, q, b) by {
      forall k | 0 <= k < |q| ensures FitsOne(one, q[k], b[k]) {
        assert FitsOne(one, (p + q)[|p| + k], c[|p| + k]);
      }
    }
    i := |Joined(a)|;
    assert parts[..i] == Joined(a) && parts[i..] == Joined(b);
  }

  ghost predicate SplitsAt(one: SegmentMatch, p: seq<string>, q: seq<string>, parts: seq<string>, i: int) {
    0 <= i <= |parts| && Matching(one, p, parts[..i]) && Matching(one, q, parts[i..])
  }

  /** Matching is compositional: `p` followed by `q` matches exactly when some split has `p`
      match the front and `q` the back. */
  lemma MatchesByParts(one: SegmentMatch, p: seq<string>, q: seq<string>, parts: seq<string>)
    ensures Matching(one, p + q, parts) <==> exists i :: SplitsAt(one, p, q, parts, i)
  {
    hide Matching;
    if Matching(one, p + q, parts) {
      var i := Cut(one, p, q, parts);
      assert SplitsAt(one, p, q, parts, i);
    }
    if i :| SplitsAt(one, p, q, parts, i) {
      assert parts == parts[..i] + parts[i..];
      Glue(one, p, q, parts[..i], parts[i..]);
    }
  }

  lemma NothingMatchesOnlyNothing(one: SegmentMatch, parts: seq<string>)
    ensures Matching(one, [], parts) <==> parts == []
  {
    assert Fits(one, [], []) && Joined([]) == [];
  }

  lemma JoinedOfOne(cut: seq<string>)
    ensures Joined([cut]) == cut
  {
    assert [cut][1..] == [];
  }

  lemma AnyMatchesAll(one: SegmentMatch, parts: seq<string>)
    ensures Matching(one, [ANY], parts)
  {
    JoinedOfOne(parts);
    assert Fits(one, [ANY], [parts]);
  }

  lemma OneMatchesOne(one: SegmentMatch, head: string, parts: seq<string>)
    requires head != ANY
    ensures Matching(one, [head], parts) <==> |parts| == 1 && one(parts[0], head)
  {
    JoinedOfOne(parts);
    if |parts| == 1 && one(parts[0], head) {
      assert Fits(one, [head], [parts]);
    }
    if cuts :| Fits(one, [head], cuts) && Joined(cuts) == parts {
      assert FitsOne(one, [head][0], cuts[0]) && cuts == [cuts[0]];
      JoinedOfOne(cuts[0]);
    }
  }

  lemma TwoAnysMatchAll(one: SegmentMatch, parts: seq<string>)
    ensures Matching(one, [ANY, ANY], parts)
  {
    AnyMatchesAll(one, parts);
    AnyMatchesAll(one, []);
    assert [ANY] + [ANY] == [ANY, ANY] && parts + [] == parts;
    Glue(one, [ANY], [ANY], parts, []);
  }

  /** A middle that matches everything may replace any other. */
  lemma ReplaceMiddle(one: SegmentMatch, p: seq<string>, was: seq<string>, now: seq<string>, q: seq<string>,
                      parts: seq<string>)
    requires Matching(one, p + was + q, parts) && forall middle :: Matching(one, now, middle)
    ensures Matching(one, p + now + q, parts)
  {
    hide Matching;
    var j := Cut(one, p + was, q, parts);
    var i := Cut(one, p, was, parts[..j]);
    Glue(one, p, now, parts[..j][..i], parts[..j][i..]);
    assert parts[..j][..i] + parts[..j][i..] == parts[..j] && parts[..j] + parts[j..] == parts;
    Glue(one, p + now, q, parts[..j], parts[j..]);
  }

  /** `**` twice in a row says no more than once, anywhere in a pattern. */
  lemma AnyTwiceIsAnyOnce(one: SegmentMatch, p: seq<string>, q: seq<string>, parts: seq<string>)
    ensures Matching(one, p + [ANY, ANY] + q, parts) <==> Matching(one, p + [ANY] + q, parts)
  {
    hide Matching;
    forall middle ensures Matching(one, [ANY], middle) && Matching(one, [ANY, ANY], middle) {
      AnyMatchesAll(one, middle);
      TwoAnysMatchAll(one, middle);
    }
    if Matching(one, p + [ANY, ANY] + q, parts) {
      ReplaceMiddle(one, p, [ANY, ANY], [ANY], q, parts);
    }
    if Matching(one, p + [ANY] + q, parts) {
      ReplaceMiddle(one, p, [ANY], [ANY, ANY], q, parts);
    }
  }

  // --- The matcher -------------------------------------------------------------------------------

  lemma AnyFirst(one: SegmentMatch, rest: seq<string>, parts: seq<string>)
    ensures Matching(one, [ANY] + rest, parts) <==>
            exists i :: 0 <= i <= |parts| && Matching(one, rest, parts[i..])
  {
    hide Matching;
    MatchesByParts(one, [ANY], rest, parts);
    forall i | 0 <= i <= |parts| ensures SplitsAt(one, [ANY], rest, parts, i) <==> Matching(one, rest, parts[i..]) {
      AnyMatchesAll(one, parts[..i]);
    }
  }

  lemma OneFirst(one: SegmentMatch, head: string, rest: seq<string>, parts: seq<string>)
    requires head != ANY
    ensures Matching(one, [head] + rest, parts) <==>
            parts != [] && one(parts[0], head) && Matching(one, rest, parts[1..])
  {
    hide Matching;
    MatchesByParts(one, [head], rest, parts);
    forall i | 0 <= i <= |parts|
      ensures SplitsAt(one, [head], rest, parts, i) <==>
              i == 1 && one(parts[0], head) && Matching(one, rest, parts[1..])
    {
      OneMatchesOne(one, head, parts[..i]);
    }
    if parts != [] && one(parts[0], head) && Matching(one, rest, parts[1..]) {
      assert SplitsAt(one, [head], rest, parts, 1);
    }
  }

  /** `_match_segments`: the backtracking search finds a cut exactly when there is one. */
  method MatchSegments(one: SegmentMatch, pat: seq<string>, parts: seq<string>) returns (ok: bool)
    ensures ok <==> Matching(one, pat, parts)
    decreases |pat|
  {
    hide Matching;
    if pat == [] {
      NothingMatchesOnlyNothing(one, parts);
      return parts == [];
    }
    var head, rest := pat[0], pat[1..];
    assert pat == [head] + rest;
    if head == ANY {
      if rest == [] {
        assert pat == [ANY];
        AnyMatchesAll(one, parts);
        return true;
      }
      AnyFirst(one, rest, parts);
      for i := 0 to |parts| + 1
        invariant forall j | 0 <= j < i :: !Matching(one, rest, parts[j..])
      {
        var found := MatchSegments(one, rest, parts[i..]);
        if found {
          return true;
        }
      }
      return false;
    }
    OneFirst(one, head, rest, parts);
    if parts == [] {
      return false;
    }
    if one(parts[0], head) {
      ok := MatchSegments(one, rest, parts[1..]);
      return;
    }
    return false;
  }

  // --- Whole paths -------------------------------------------------------------------------------

  function Slashed(s: string): (r: string)
    ensures |r| == |s|
    ensures forall k | 0 <= k < |s| :: r[k] == if s[k] == '\\' then '/' else s[k]
  {
    if s == [] then [] else [if s[0] == '\\' then '/' else s[0]] + Slashed(s[1..])
  }

  function StripLeft(s: string): (r: string)
    ensures r == [] || r[0] != '/'
    ensures |r| <= |s| && r == s[|s| - |r|..] && forall k | 0 <= k < |s| - |r| :: s[k] == '/'
  {
    if s != [] && s[0] == '/' then StripLeft(s[1..]) else s
  }

  function Normalise(rel: string): string {
    StripLeft(Slashed(rel))
  }

  /** `s.split("/")`. */
  function Split(s: string): (r: seq<string>)
    ensures r != []
  {
    if s == [] then [[]]
    else
      var rest := Split(s[1..]);
      if s[0] == '/' then [[]] + rest else [[s[0]] + rest[0]] + rest[1..]
  }

  function JoinSlash(parts: seq<string>): string
    requires parts != []
  {
    if |parts| == 1 then parts[0] else parts[0] + "/" + JoinSlash(parts[1..])
  }

  /** Splitting loses nothing, and no segment holds a slash. */
  lemma {:induction false} SplitIsExact(s: string)
    ensures JoinSlash(Split(s)) == s
    ensures forall k | 0 <= k < |Split(s)| :: '/' !in Split(s)[k]
  {
    if s != [] {
      SplitIsExact(s[1..]);
      var rest := Split(s[1..]);
      assert s == [s[0]] + s[1..];
      if s[0] == '/' {
        assert Split(s) == [[]] + rest;
      } else {
        assert Split(s) == [[s[0]] + rest[0]] + rest[1..];
      }
    }
  }

  ghost predicate PathMatches(one: SegmentMatch, pattern: string, rel: string) {
    Matching(one, Split(Slashed(pattern)), Split(Normalise(rel)))
  }

  method Matches(one: SegmentMatch, pattern: string, rel: string) returns (ok: bool)
    ensures ok <==> PathMatches(one, pattern, rel)
    ensures ok <==> Matching(one, Split(Slashed(pattern)), Split(Normalise(rel)))
  {
    ok := MatchSegments(one, Split(Slashed(pattern)), Split(Normalise(rel)));
  }

  datatype Rejection = EscapesRoot | NoEntryMatches

  lemma SlashedPlain(s: string)
    requires forall k | 0 <= k < |s| :: s[k] != '\\'
    ensures Slashed(s) == s
  {
    hide Slashed;
    assert forall k | 0 <= k < |s| :: Slashed(s)[k] == s[k];
  }

  /** Normalising again changes nothing. */
  lemma NormaliseTwice(rel: string)
    ensures Normalise(Normalise(rel)) == Normalise(rel)
  {
    hide Slashed, StripLeft;
    var t := Slashed(rel);
    var r := StripLeft(t);
    var n := |t| - |r|;
    forall k | 0 <= k < |r| ensures r[k] != '\\' {
      assert r[k] == t[n..][k] == t[n + k];
    }
    SlashedPlain(r);
  }

  /** What is left of a path has no backslash and does not begin with a slash, and a slash of either
      kind in front changes nothing. */
  lemma NormaliseMeaning(rel: string, slash: char)
    requires slash == '/' || slash == '\\'
    ensures Normalise(rel) == [] || Normalise(rel)[0] != '/'
    ensures '\\' !in Normalise(rel)
    ensures Normalise([slash] + rel) == Normalise(rel)
  {
    var t := Slashed(rel);
    assert ([slash] + rel)[1..] == rel && Slashed([slash] + rel) == ['/'] + t;
    assert (['/'] + t)[1..] == t;
    var r := Normalise(rel);
    forall k | 0 <= k < |r| ensures r[k] != '\\' {
      assert r[k] == t[|t| - |r|..][k];
    }
  }

  /** Slashes in front of a path change no verdict. */
  lemma SlashesInFront(one: SegmentMatch, pattern: string, rel: string, slash: char)
    requires slash == '/' || slash == '\\'
    ensures PathMatches(one, pattern, [slash] + rel) <==> PathMatches(one, pattern, rel)
    ensures (Normalise([slash] + rel) == "" || ".." <= Normalise([slash] + rel)) <==>
      (Normalise(rel) == "" || ".." <= Normalise(rel))
  {
    NormaliseMeaning(rel, slash);
  }

  /** `validate_path`: the first entry, in the order of the specification, whose pattern the
      path matches. */
  method ValidatePath(one: SegmentMatch, patterns: seq<string>, path: string) returns (r: Result<nat, Rejection>)
    ensures r.Err? && r.error == EscapesRoot <==> Normalise(path) == "" || ".." <= Normalise(path)
    ensures r.Ok? ==> r.value < |patterns| && PathMatches(one, patterns[r.value], path)
    ensures r.Ok? ==> forall j | 0 <= j < r.value :: !PathMatches(one, patterns[j], path)
    ensures r.Err? && r.error == NoEntryMatches ==> forall j | 0 <= j < |patterns| :: !PathMatches(one, patterns[j], path)
  {
    hide Normalise, Slashed, StripLeft, Split, Matching;
    var rel := Normalise(path);
    if rel == "" || ".." <= rel {
      return Err(EscapesRoot);
    }
    NormaliseTwice(path);
    for i := 0 to |patterns|
      invariant forall j | 0 <= j < i :: !PathMatches(one, patterns[j], path)
    {
      var ok := Matches(one, patterns[i], rel);
      if ok {
        return Ok(i);
      }
    }
    return Err(NoEntryMatches);
  }
}
