# jgit NameMatcher, modelled in Dafny

This project models `NameMatcher`, jgit's matcher for an ignore rule that
names one path segment literally (no wildcards), as used for `.gitignore`
files. Following gitignore(5):

- a rule with a leading separator (`/foo`) is anchored: it is compared with
  the first segment of the path only;
- a rule marked directory-only (written `foo/`) matches a segment only if
  that segment is a directory. This holds when the segment is followed by a
  separator in the path, or when the caller says the whole path is a
  directory.

Files:

- `java_string.dfy` (module `JavaString`): `String.indexOf(char, from)`, the
  one library call the matcher's helpers use.
- `path_segments.dfy` (module `PathSegments`): a reference definition of the
  segments of a path. `Split` cuts a string at every separator, character by
  character. `Join` is its inverse, and round-trip lemmas hold in both
  directions. `Segments` drops the empty piece before one leading separator.
- `name_matcher.dfy` (module `IgnoreInternal`): the class `NameMatcher`.
  Its fields are `const`, because the object never changes after
  construction. The two `matches` methods are loops with invariants. Each is
  proved against the declarative meaning: "segment equals the rule's name",
  and "some visited segment of the path equals it, subject to anchoring and
  the directory rule". The index helpers are functions.

## Model

| member | source | states |
|---|---|---|
| `JavaString.IndexOf` | org.eclipse.jgit/src/org/eclipse/jgit/ignore/internal/NameMatcher.java:105 | the result is -1 or a position at or after `from` holding the character, and no earlier position at or after `from` holds it |
| `IgnoreInternal.NameMatcher.constructor` | org.eclipse.jgit/src/org/eclipse/jgit/ignore/internal/NameMatcher.java:59-71 | `beginning` holds iff the rule is non-empty and starts with the separator; `subPattern` is the rule without exactly that one separator; the separator (if stripped) followed by `subPattern` gives back the rule; the rule and the directory-only flag are kept |
| `IgnoreInternal.NameMatcher.FirstNotSlash` | org.eclipse.jgit/src/org/eclipse/jgit/ignore/internal/NameMatcher.java:104-107 | returns `start + 1` exactly when `s[start]` is the separator, otherwise `start`, so it skips at most one separator |
| `IgnoreInternal.NameMatcher.FirstSlash` | org.eclipse.jgit/src/org/eclipse/jgit/ignore/internal/NameMatcher.java:109-112 | when `start` is within the string the result lies between `start` and the length of `s`; it is the first separator position at or after `start`, or the length of `s` if there is none |
| `IgnoreInternal.NameMatcher.SplitAtFirstSlash` | org.eclipse.jgit/src/org/eclipse/jgit/ignore/internal/NameMatcher.java:77-78 | the segment the scan reads from `firstChar` up to the next separator is the first split piece of the rest of the path; if a separator ends it, the remaining pieces are those after that separator |
| `IgnoreInternal.NameMatcher.MatchesSegment` | org.eclipse.jgit/src/org/eclipse/jgit/ignore/internal/NameMatcher.java:89-102 | true iff the range has the rule's length and, for a non-empty rule, `segment[startIncl..endExcl]` equals the rule's name; `assumeDirectory` has no influence |
| `IgnoreInternal.NameMatcher.Matches` | org.eclipse.jgit/src/org/eclipse/jgit/ignore/internal/NameMatcher.java:73-87 | unanchored plain rule: true iff the name is one of the path's segments. Unanchored directory-only rule: true iff some segment equals the name and is followed by another segment, or the path is assumed to be a directory. Anchored rule: only the first segment is compared, with the same directory condition. The loop ends because the distance from `end` to the end of the path decreases: every continuing iteration stops at a separator |
| `PathSegments.Split` | org.eclipse.jgit/src/org/eclipse/jgit/ignore/internal/NameMatcher.java:76-85 | the segments of a path: at least one piece, none containing the separator |
| `PathSegments.JoinSplit` | org.eclipse.jgit/src/org/eclipse/jgit/ignore/internal/NameMatcher.java:76-85 | joining the split pieces with the separator gives the original string back |
| `PathSegments.SplitJoin` | org.eclipse.jgit/src/org/eclipse/jgit/ignore/internal/NameMatcher.java:76-85 | any non-empty list of separator-free pieces is the split of its join, so the segments of a path are uniquely determined |
| `PathSegments.SegmentsJoin` | org.eclipse.jgit/src/org/eclipse/jgit/ignore/internal/NameMatcher.java:76-85 | the segments the scan visits contain no separator and join back to the path minus its one leading separator |

## Left out

- `Strings.getPathSeparator` is not part of this model. The constructor takes the separator character itself, not an optional one with a default.
- `Strings.deleteBackslash` is not part of this model. The constructor models the call path where backslash deletion is off, so `beginning` and `subPattern` are computed from the rule as given.
- `AbstractMatcher` is not part of this model beyond the two fields it stores: the rule text and the directory-only flag.
- The class comment's claim that the matcher is thread safe is not modelled. Concurrency is out of scope; the model only makes every field `const`.
- `IgnoreInternal.NameMatcher.MatchesSegment`: the requires excludes calls where the range has the rule's length, the rule is not empty, and the range lies outside the string. On such a call Java throws `StringIndexOutOfBoundsException` only if the comparison reaches an out-of-range position before any mismatch; if a mismatch comes first it returns false. `Matches` never makes such a call. Calls with an empty rule and an empty range are admitted at any position and return true, as in Java.
- `IgnoreInternal.NameMatcher.MatchesSegment`: Java `int` wrap-around in `endExcl - startIncl` is not modelled; Dafny integers are unbounded, so a pair of extreme indices whose Java difference wraps to the rule's length is not reproduced.
- `JavaString.IndexOf`: Java also accepts a negative start index and treats it as 0. The model takes a `nat`, because every call site passes a non-negative index.
- Java `char` is a UTF-16 code unit, while Dafny `char` is a Unicode scalar value. A string holding an unpaired surrogate cannot be expressed in the model. A character outside the Basic Multilingual Plane takes one position in the model and two in Java, so the indices `startIncl`/`endExcl` of the segment method and the scan positions `firstChar`/`end` differ from Java's on such strings. For strings of well-formed characters, `Matches` returns the same result as the source.
