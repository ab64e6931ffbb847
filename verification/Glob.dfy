/** Patterns over slash separated paths, where two stars stand for any number of segments. */
module Glob {
  import opened Text

  /** How one segment matches one pattern segment. None is a pattern that does not parse. */
  type SegmentMatch = (string, string) -> Option<bool>

  const ANY := "**"

  // What a pattern denotes

  /** What one pattern segment stands for: any run of segments, or one that matches. */
  predicate Stands(one: SegmentMatch, pattern: string, share: seq<string>) {
    pattern == "**" || (|share| == 1 && one(pattern, share[0]) == Some(true))
  }

  function Flatten(shares: seq<seq<string>>): seq<string> {
    if shares == [] then [] else shares[0] + Flatten(shares[1..])
  }

  ghost predicate Fits(one: SegmentMatch, pattern: seq<string>, shares: seq<seq<string>>) {
    |shares| == |pattern| && forall i :: 0 <= i < |pattern| ==> Stands(one, pattern[i], shares[i])
  }

  /** The path falls into shares, one for each pattern segment. */
  ghost predicate Denotes(one: SegmentMatch, pattern: seq<string>, path: seq<string>) {
    exists shares :: Fits(one, pattern, shares) && Flatten(shares) == path
  }

  lemma NothingDenotesNothing(one: SegmentMatch, path: seq<string>)
    ensures Denotes(one, [], path) <==> path == []
  {
    assert Fits(one, [], []) && Flatten([]) == [];
  }

  /** Whether the first n segments are what one pattern segment stands for. */
  predicate Takes(one: SegmentMatch, pattern: string, path: seq<string>, n: nat) {
    n <= |path| && Stands(one, pattern, path[..n])
  }

  /** The first pattern segment takes some leading share, and the rest denotes what remains. */
  lemma {:induction false} FirstShare(one: SegmentMatch, pattern: seq<string>, path: seq<string>)
    requires pattern != []
    ensures Denotes(one, pattern, path) <==>
      exists n: nat :: Takes(one, pattern[0], path, n) && Denotes(one, pattern[1..], path[n..])
  {
    if Denotes(one, pattern, path) {
      var shares :| Fits(one, pattern, shares) && Flatten(shares) == path;
      var n := |shares[0]|;
      assert path[..n] == shares[0] && path[n..] == Flatten(shares[1..]);
      assert Fits(one, pattern[1..], shares[1..]);
      assert Takes(one, pattern[0], path, n);
    }
    if n: nat :| Takes(one, pattern[0], path, n) && Denotes(one, pattern[1..], path[n..]) {
      var rest :| Fits(one, pattern[1..], rest) && Flatten(rest) == path[n..];
      var shares := [path[..n]] + rest;
      assert shares[1..] == rest && path == path[..n] + path[n..];
      assert Fits(one, pattern, shares);
    }
  }

  // Matching

  method MatchSegments(one: SegmentMatch, pattern: seq<string>, path: seq<string>) returns (matched: bool)
    ensures matched <==> Denotes(one, pattern, path)
    decreases |pattern|
  {
    hide Denotes;
    var pattern', path' := pattern, path;
    while pattern' != []
      invariant |pattern'| <= |pattern|
      invariant Denotes(one, pattern, path) <==> Denotes(one, pattern', path')
      decreases |pattern'|
    {
      FirstShare(one, pattern', path');
      if pattern'[0] == ANY {
        for i := 0 to |path'| + 1
          invariant forall n :: 0 <= n < i ==> !Denotes(one, pattern'[1..], path'[n..])
        {
          var rest := MatchSegments(one, pattern'[1..], path'[i..]);
          if rest {
            return true;
          }
        }
        return false;
      }
      if path' == [] {
        return false;
      }
      if one(pattern'[0], path'[0]) != Some(true) {
        return false;
      }
      pattern', path' := pattern'[1..], path'[1..];
    }
    NothingDenotesNothing(one, path');
    return path' == [];
  }

  // Paths

  /** Between the slashes. There is always at least one segment. */
  function Segments(path: string): (segments: seq<string>)
    ensures segments != []
  {
    if path == "" then [""]
    else
      var rest := Segments(path[1..]);
      if path[0] == '/' then [""] + rest else [[path[0]] + rest[0]] + rest[1..]
  }

  function Joined(segments: seq<string>): string {
    if segments == [] then ""
    else if |segments| == 1 then segments[0]
    else segments[0] + "/" + Joined(segments[1..])
  }

  predicate Slashless(segments: seq<string>) {
    forall i :: 0 <= i < |segments| ==> '/' !in segments[i]
  }

  lemma {:induction false} SegmentsSlashless(path: string)
    ensures Slashless(Segments(path))
  {
    if path != "" {
      SegmentsSlashless(path[1..]);
    }
  }

  lemma {:induction false} OneSegment(segment: string)
    requires '/' !in segment
    ensures Segments(segment) == [segment]
  {
    if segment != "" {
      OneSegment(segment[1..]);
      assert [segment[0]] + segment[1..] == segment;
    }
  }

  /** A slash parts the segments before it from those after it. */
  lemma {:induction false} SegmentsOfBoth(a: string, b: string)
    ensures Segments(a + "/" + b) == Segments(a) + Segments(b)
  {
    var both := a + "/" + b;
    if a == "" {
      assert both[1..] == b;
    } else {
      assert both[1..] == a[1..] + "/" + b;
      SegmentsOfBoth(a[1..], b);
    }
  }

  /** Joining segments and splitting again gives them back. */
  lemma {:induction false} JoinedSplitsBack(segments: seq<string>)
    requires segments != [] && Slashless(segments)
    ensures Segments(Joined(segments)) == segments
  {
    OneSegment(segments[0]);
    if |segments| > 1 {
      SegmentsOfBoth(segments[0], Joined(segments[1..]));
      JoinedSplitsBack(segments[1..]);
      assert segments == [segments[0]] + segments[1..];
    } else {
      assert segments == [segments[0]];
    }
  }

  method MatchGlob(one: SegmentMatch, pattern: string, path: string) returns (matched: bool)
    ensures matched <==> Denotes(one, Segments(pattern), Segments(path))
  {
    matched := MatchSegments(one, Segments(pattern), Segments(path));
  }

  // Exclusion

  /** A pattern matches the path or a directory above it. */
  ghost predicate IsExcluded(one: SegmentMatch, patterns: seq<string>, path: string) {
    exists pattern, n :: pattern in patterns && 1 <= n <= |Segments(path)|
      && Denotes(one, Segments(pattern), Segments(path)[..n])
  }

  method Excluded(one: SegmentMatch, patterns: seq<string>, path: string) returns (excluded: bool)
    ensures excluded <==> IsExcluded(one, patterns, path)
  {
    hide Denotes;
    hide Segments;
    var segments := Segments(path);
    SegmentsSlashless(path);
    for k := 0 to |patterns|
      invariant forall j, n :: 0 <= j < k && 1 <= n <= |segments| ==> !Denotes(one, Segments(patterns[j]), segments[..n])
    {
      for i := 1 to |segments| + 1
        invariant forall n :: 1 <= n < i ==> !Denotes(one, Segments(patterns[k]), segments[..n])
      {
        JoinedSplitsBack(segments[..i]);
        var matched := MatchGlob(one, patterns[k], Joined(segments[..i]));
        if matched {
          assert patterns[k] in patterns;
          return true;
        }
      }
    }
    return false;
  }

  /** What is excluded takes everything beneath it along. */
  lemma {:induction false} ExclusionIsInherited(one: SegmentMatch, patterns: seq<string>, directory: string, below: string)
    requires IsExcluded(one, patterns, directory)
    ensures IsExcluded(one, patterns, directory + "/" + below)
  {
    hide Denotes;
    hide Segments;
    var pattern, n :| pattern in patterns && 1 <= n <= |Segments(directory)|
      && Denotes(one, Segments(pattern), Segments(directory)[..n]);
    SegmentsOfBoth(directory, below);
    assert Segments(directory + "/" + below)[..n] == Segments(directory)[..n];
  }
}
