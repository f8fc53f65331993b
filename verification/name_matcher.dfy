/**
 * jgit's matcher for an ignore rule that names a single path segment
 * literally (no wildcards), in the package org.eclipse.jgit.ignore.internal.
 * Following gitignore(5), a leading separator anchors the rule to the first
 * segment of the path, and a rule marked directory-only matches a segment
 * only when that segment is a directory.
 */
module IgnoreInternal {
  import opened JavaString
  import opened PathSegments

  /** An immutable matcher: every field is fixed by the constructor. */
  class NameMatcher {
    /** The rule as given (kept by the abstract matcher base class). */
    const pattern: string
    /** Whether the rule only matches directories (trailing separator in the rule). */
    const dirOnly: bool
    /** The path separator character. */
    const slash: char
    /** Whether the rule is anchored at the start of the path. */
    const beginning: bool
    /** The segment name the rule looks for. */
    const subPattern: string

    constructor (pattern: string, pathSeparator: char, dirOnly: bool)
      ensures this.pattern == pattern && this.dirOnly == dirOnly && slash == pathSeparator
      ensures beginning <==> |pattern| > 0 && pattern[0] == pathSeparator
      ensures subPattern == if beginning then pattern[1..] else pattern
      ensures pattern == (if beginning then [pathSeparator] else []) + subPattern
    {
      this.pattern := pattern;
      this.dirOnly := dirOnly;
      slash := pathSeparator;
      beginning := if |pattern| == 0 then false else pattern[0] == pathSeparator;
      subPattern := if |pattern| > 0 && pattern[0] == pathSeparator then pattern[1..] else pattern;
    }

    /** Skips one separator at `start`, if there is one there. */
    function FirstNotSlash(s: string, start: nat): (r: nat)
      ensures start <= r <= start + 1
      ensures r == start + 1 <==> start < |s| && s[start] == slash
    {
      var slashIdx := IndexOf(s, slash, start);
      if slashIdx == start then start + 1 else start
    }

    /** Position of the first separator at or after `start`, or |s| if none. */
    function FirstSlash(s: string, start: nat): (r: nat)
      ensures r <= |s|
      ensures start <= |s| ==> start <= r
      ensures r < |s| ==> start <= r && s[r] == slash
      ensures forall i :: start <= i < r ==> s[i] != slash
    {
      var slashIdx := IndexOf(s, slash, start);
      if slashIdx == -1 then |s| else slashIdx
    }

    /**
     * The segment starting at `from` runs up to the next separator; when one
     * is found, the remaining segments are those after it.
     */
    lemma {:induction false} SplitAtFirstSlash(path: string, from: nat)
      requires from <= |path|
      ensures var e := FirstSlash(path, from);
        Split(path[from..], slash)
          == [path[from..e]] + (if e < |path| then Split(path[e + 1..], slash) else [])
      decreases |path| - from
    {
      var e := FirstSlash(path, from);
      if from == e {
        if e < |path| {
          assert path[from..][0] == slash && path[from..][1..] == path[e + 1..];
        }
      } else {
        var e' := FirstSlash(path, from + 1);
        assert e' == e;
        SplitAtFirstSlash(path, from + 1);
        assert path[from..][0] == path[from] != slash;
        assert path[from..][1..] == path[from + 1..];
        assert [path[from]] + path[from + 1..e] == path[from..e];
      }
    }

    /**
     * Compares `segment[startIncl..endExcl]` with the rule's name, character
     * by character. The directory flag takes no part in the comparison.
     */
    method MatchesSegment(segment: string, startIncl: int, endExcl: int, assumeDirectory: bool)
      returns (r: bool)
      requires endExcl - startIncl != |subPattern| || |subPattern| == 0
               || 0 <= startIncl <= endExcl <= |segment|
      ensures r <==> endExcl - startIncl == |subPattern|
                     && (|subPattern| == 0 || segment[startIncl..endExcl] == subPattern)
    {
      var s := subPattern;
      if |s| != endExcl - startIncl {
        return false;
      }
      for i := 0 to |s|
        invariant forall j :: 0 <= j < i ==> s[j] == segment[j + startIncl]
      {
        var c1 := s[i];
        var c2 := segment[i + startIncl];
        if c1 != c2 {
          assert segment[startIncl..endExcl][i] != s[i];
          return false;
        }
      }
      return true;
    }

    /**
     * Whether the rule matches `path`. The segments of the path are visited
     * left to right (only the first one when the rule is anchored); the scan
     * stops at the first segment equal to the rule's name. A directory-only
     * rule then holds only if that segment is followed by a separator or the
     * caller says the path is a directory.
     */
    method Matches(path: string, assumeDirectory: bool) returns (r: bool)
      ensures !beginning && !dirOnly ==> (r <==> subPattern in Segments(path, slash))
      ensures !beginning && dirOnly ==>
        (r <==> exists i :: 0 <= i < |Segments(path, slash)| && Segments(path, slash)[i] == subPattern
                            && (i + 1 < |Segments(path, slash)| || assumeDirectory))
      ensures beginning ==>
        (r <==> Segments(path, slash)[0] == subPattern
                && (!dirOnly || |Segments(path, slash)| > 1 || assumeDirectory))
    {
      ghost var segs := Segments(path, slash);
      var end := 0;
      var firstChar := 0;
      // index in `segs` of the segment the next iteration visits
      ghost var k := 0;
      while true
        invariant 0 <= end <= |path|
        invariant k == 0 ==> end == 0
        invariant k > 0 ==> !beginning && end < |path| && path[end] == slash
        invariant k > 0 ==> k < |segs| && Split(path[end + 1..], slash) == segs[k..]
        invariant forall i :: 0 <= i < k ==> segs[i] != subPattern
        decreases |path| - end
      {
        ghost var oldEnd := end;
        firstChar := FirstNotSlash(path, end);
        assert Split(path[firstChar..], slash) == segs[k..] by {
          if k == 0 {
            assert path[0..] == path;
          }
        }
        end := FirstSlash(path, firstChar);
        SplitAtFirstSlash(path, firstChar);
        assert segs[k] == path[firstChar..end];
        assert end < |path| ==> k + 1 < |segs| && segs[k + 1..] == Split(path[end + 1..], slash);
        assert end == |path| ==> |segs| == k + 1;
        var matched := MatchesSegment(path, firstChar, end, assumeDirectory);
        if matched {
          assert end != |path| ==> end > 0;
          r := !dirOnly || (end > 0 && end != |path|) || assumeDirectory;
          return;
        }
        if beginning || end == |path| {
          break;
        }
        assert oldEnd < end;
        k := k + 1;
      }
      r := false;
    }
  }
}
