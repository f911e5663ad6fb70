/** Request-path splitting of the polling API (socialpoll/api/path.go).
    A path such as "/polls/123/" is trimmed of separators at both ends,
    split on the separator, and its last segment is taken as the ID when
    there is more than one segment. */
module Paths {

  /** The separator the API splits paths on. */
  const Separator: char := '/'

  /** The parsed form of a request path: the collection part and the ID. */
  datatype Path = Path(path: string, id: string)

  /** Every character of `s` is a separator. */
  ghost predicate AllSeparators(s: string) {
    forall i :: 0 <= i < |s| ==> s[i] == Separator
  }

  /** `s` neither starts nor ends with a separator. */
  ghost predicate Trimmed(s: string) {
    |s| > 0 ==> s[0] != Separator && s[|s| - 1] != Separator
  }

  /** Removes every leading separator: the result is the longest suffix
      of `s` that does not start with one. */
  function TrimLeft(s: string): (r: string)
    ensures |r| <= |s| && r == s[|s| - |r|..]
    ensures AllSeparators(s[..|s| - |r|])
    ensures |r| > 0 ==> r[0] != Separator
    decreases |s|
  {
    if |s| > 0 && s[0] == Separator then TrimLeft(s[1..]) else s
  }

  /** Removes every trailing separator: the result is the longest prefix
      of `s` that does not end with one. */
  function TrimRight(s: string): (r: string)
    ensures |r| <= |s| && r == s[..|r|]
    ensures AllSeparators(s[|r|..])
    ensures |r| > 0 ==> r[|r| - 1] != Separator
    decreases |s|
  {
    if |s| > 0 && s[|s| - 1] == Separator then TrimRight(s[..|s| - 1]) else s
  }

  /** `strings.Trim(s, "/")`: strips separators from both ends. */
  function Trim(s: string): (r: string)
    ensures Trimmed(r)
    ensures Separator !in s ==> r == s
  {
    TrimRight(TrimLeft(s))
  }

  /** Position of the last occurrence of `c` in `s`. */
  function LastIndexOf(s: string, c: char): (i: nat)
    requires c in s
    ensures i < |s| && s[i] == c && c !in s[i + 1..]
  {
    if s[|s| - 1] == c then |s| - 1 else LastIndexOf(s[..|s| - 1], c)
  }

  /** `strings.Join(segments, "/")`. */
  function Join(segments: seq<string>): string
  {
    if |segments| == 0 then ""
    else if |segments| == 1 then segments[0]
    else segments[0] + [Separator] + Join(segments[1..])
  }

  /** A string is the part before position `i`, the character there, and
      the part after. */
  lemma SplitAround(s: string, i: nat)
    requires i < |s|
    ensures s == s[..i] + [s[i]] + s[i + 1..]
  {
  }

  /** The parts of a sequence with one element appended. */
  lemma SnocParts(s: seq<string>, init: seq<string>, last: string)
    requires s == init + [last]
    ensures |s| > 0 && s[..|s| - 1] == init && s[|s| - 1] == last
  {
  }

  /** `strings.Split(s, "/")`: the separator-free segments whose join is
      `s`; an input without a separator (the empty one included) is one
      segment. Segments are taken off the end, at the last separator. */
  function Split(s: string): (r: seq<string>)
    ensures |r| > 0
    ensures forall i :: 0 <= i < |r| ==> Separator !in r[i]
    ensures Join(r) == s
    ensures |r| > 1 <==> Separator in s
    decreases |s|
  {
    if Separator !in s then [s]
    else
      var i := LastIndexOf(s, Separator);
      var init, last := s[..i], s[i + 1..];
      SplitAround(s, i);
      JoinSnoc(Split(init), last);
      Split(init) + [last]
  }

  /** `NewPath`: trims, splits, and separates the last segment as the ID
      when there is more than one segment. The ID has no separator and is
      non-empty exactly when the trimmed input has a separator; path,
      separator and ID (or the path alone when there is no ID) give back
      the trimmed input. */
  function NewPath(p: string): (r: Path)
    ensures Separator !in r.id
    ensures r.id != "" <==> Separator in Trim(p)
    ensures r.id != "" ==> r.path + [Separator] + r.id == Trim(p)
    ensures r.id == "" ==> r.path == Trim(p)
  {
    var t := Trim(p);
    var s := Split(t);
    if |s| > 1 then
      var path, id := Join(s[..|s| - 1]), s[|s| - 1];
      SplitLast(t);
      JoinedTrimmed(t, path, id);
      Path(path, id)
    else Path(t, "")
  }

  /** `HasID`: the path carries a non-empty ID. */
  function HasID(p: Path): bool
  {
    |p.id| > 0
  }

  /** Joining one more segment appends a separator and that segment. */
  lemma {:induction false} JoinSnoc(segments: seq<string>, last: string)
    requires |segments| > 0
    ensures Join(segments + [last]) == Join(segments) + [Separator] + last
    decreases |segments|
  {
    if |segments| == 1 {
      assert segments + [last] == [segments[0], last];
    } else {
      assert (segments + [last])[1..] == segments[1..] + [last];
      JoinSnoc(segments[1..], last);
    }
  }

  /** The last separator of `x + "/" + last`, where `last` has none, is
      the one between them. */
  lemma {:induction false} LastIndexOfSnoc(x: string, last: string)
    requires Separator !in last
    ensures LastIndexOf(x + [Separator] + last, Separator) == |x|
    decreases |last|
  {
    var s := x + [Separator] + last;
    if |last| > 0 {
      assert s[|s| - 1] == last[|last| - 1];
      assert s[..|s| - 1] == x + [Separator] + last[..|last| - 1];
      LastIndexOfSnoc(x, last[..|last| - 1]);
    }
  }

  /** Splitting `x + "/" + last`, where `last` has no separator, gives the
      segments of `x` followed by `last`. */
  lemma SplitSnoc(x: string, last: string)
    requires Separator !in last
    ensures Split(x + [Separator] + last) == Split(x) + [last]
  {
    var s := x + [Separator] + last;
    LastIndexOfSnoc(x, last);
    assert s[..|x|] == x && s[|x| + 1..] == last;
  }

  /** Trimming an already trimmed string changes nothing. */
  lemma TrimTrimmed(t: string)
    requires Trimmed(t)
    ensures Trim(t) == t
  {
    assert TrimLeft(t) == t;
  }

  /** Trimming is idempotent. */
  lemma TrimIdempotent(s: string)
    ensures Trim(Trim(s)) == Trim(s)
  {
    TrimTrimmed(Trim(s));
  }

  /** Trimmed input without a separator: no ID, and the path is the
      trimmed input itself; the empty input gives an empty path. A
      corollary of `NewPath`'s contract, stated as one equation. */
  lemma NewPathWithoutSeparator(p: string)
    requires Separator !in Trim(p)
    ensures NewPath(p) == Path(Trim(p), "")
    ensures !HasID(NewPath(p))
  {
  }

  /** Trimmed input with a separator: the ID is the last segment, is
      non-empty and has no separator, the path is non-empty and does not
      start with a separator, and path, separator and ID put back
      together give the trimmed input. */
  lemma NewPathWithSeparator(p: string)
    requires Separator in Trim(p)
    ensures var q := NewPath(p);
      && q.id != "" && Separator !in q.id
      && q.path != "" && q.path[0] != Separator
      && q.path + [Separator] + q.id == Trim(p)
  {
    var t := Trim(p);
    var s := Split(t);
    SplitLast(t);
    JoinedTrimmed(t, Join(s[..|s| - 1]), s[|s| - 1]);
  }

  /** A string with a separator is its segments but the last, joined,
      a separator, and the last segment. */
  lemma SplitLast(t: string)
    requires Separator in t
    ensures var s := Split(t);
      && |s| > 1 && Separator !in s[|s| - 1]
      && t == Join(s[..|s| - 1]) + [Separator] + s[|s| - 1]
  {
    var i := LastIndexOf(t, Separator);
    var init, last := t[..i], t[i + 1..];
    SplitAround(t, i);
    var s := Split(t);
    SnocParts(s, Split(init), last);
  }

  /** The separator at position |path| of a trimmed string is neither its
      first nor its last character, so both sides of it are non-empty. */
  lemma JoinedTrimmed(t: string, path: string, id: string)
    requires t == path + [Separator] + id && Trimmed(t)
    ensures path != "" && id != "" && path[0] != Separator
  {
    assert t[|path|] == Separator;
    assert |path| != 0 && |path| != |t| - 1;
    assert t[0] == path[0];
  }

  /** `HasID` holds exactly when the trimmed input contains a separator:
      a corollary of `NewPath`'s contract, stated in terms of `HasID`. */
  lemma HasIDIff(p: string)
    ensures HasID(NewPath(p)) <==> Separator in Trim(p)
  {
  }

  /** The other direction of the round trip: putting a non-empty path
      that does not start with a separator together with a non-empty,
      separator-free ID and parsing the result gives them back. */
  lemma NewPathOfJoined(path: string, id: string)
    requires path != "" && path[0] != Separator
    requires id != "" && Separator !in id
    ensures NewPath(path + [Separator] + id) == Path(path, id)
  {
    var t := path + [Separator] + id;
    assert t[|t| - 1] == id[|id| - 1];
    TrimTrimmed(t);
    SplitSnoc(path, id);
    var s := Split(t);
    assert s[..|s| - 1] == Split(path);
  }

  /** Parsing depends only on the trimmed input: surrounding separators
      are ignored. */
  lemma NewPathIgnoresEdges(p: string)
    ensures NewPath(Trim(p)) == NewPath(p)
  {
    TrimIdempotent(p);
  }

  /** Leading separators before a string that does not start with one
      are exactly what TrimLeft removes. */
  lemma {:induction false} TrimLeftLeading(lead: string, t: string)
    requires AllSeparators(lead)
    requires |t| > 0 && t[0] != Separator
    ensures TrimLeft(lead + t) == t
    decreases |lead|
  {
    if |lead| == 0 {
      assert lead + t == t;
    } else {
      assert (lead + t)[1..] == lead[1..] + t;
      TrimLeftLeading(lead[1..], t);
    }
  }

  /** Trailing separators after a string that does not end with one are
      exactly what TrimRight removes. */
  lemma {:induction false} TrimRightTrailing(t: string, trail: string)
    requires AllSeparators(trail)
    requires |t| > 0 && t[|t| - 1] != Separator
    ensures TrimRight(t + trail) == t
    decreases |trail|
  {
    if |trail| == 0 {
      assert t + trail == t;
    } else {
      assert (t + trail)[..|t + trail| - 1] == t + trail[..|trail| - 1];
      TrimRightTrailing(t, trail[..|trail| - 1]);
    }
  }

  /** Any run of separators around a path and ID, as in "/polls/123/",
      is ignored: the path and ID come back unchanged. */
  lemma NewPathSurrounded(lead: string, path: string, id: string, trail: string)
    requires AllSeparators(lead) && AllSeparators(trail)
    requires path != "" && path[0] != Separator
    requires id != "" && Separator !in id
    ensures NewPath(lead + path + [Separator] + id + trail) == Path(path, id)
  {
    var t := path + [Separator] + id;
    assert t[0] == path[0] && t[|t| - 1] == id[|id| - 1];
    var s := lead + (t + trail);
    assert lead + path + [Separator] + id + trail == s;
    TrimLeftLeading(lead, t + trail);
    TrimRightTrailing(t, trail);
    assert Trim(s) == t;
    TrimTrimmed(t);
    assert NewPath(s) == NewPath(t);
    NewPathOfJoined(path, id);
  }

  /** An empty segment before the ID stays in the path: "a//b" parses to
      the path "a/" and the ID "b", so only the trimmed input, not the
      path, is free of a trailing separator. */
  lemma NewPathEmptySegment(a: string, b: string)
    requires a != "" && Separator !in a
    requires b != "" && Separator !in b
    ensures NewPath(a + [Separator, Separator] + b) == Path(a + [Separator], b)
  {
    assert (a + [Separator])[0] == a[0];
    assert a + [Separator, Separator] + b == (a + [Separator]) + [Separator] + b;
    NewPathOfJoined(a + [Separator], b);
  }
}
