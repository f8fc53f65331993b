/**
 * Reference definition of the segments of a path: the pieces obtained by
 * splitting it at every separator character. It is written character by
 * character, independently of any index search, and it is characterised
 * by its inverse `Join`.
 */
module PathSegments {

  /** The pieces of `t` between separators, in order (at least one piece). */
  function Split(t: string, sep: char): (r: seq<string>)
    ensures |r| >= 1
    ensures forall i :: 0 <= i < |r| ==> sep !in r[i]
    decreases |t|
  {
    if t == [] then [""]
    else if t[0] == sep then [""] + Split(t[1..], sep)
    else
      var rest := Split(t[1..], sep);
      [[t[0]] + rest[0]] + rest[1..]
  }

  /** The pieces glued back together with one separator between neighbours. */
  function Join(pieces: seq<string>, sep: char): string
  {
    if |pieces| == 0 then ""
    else if |pieces| == 1 then pieces[0]
    else pieces[0] + [sep] + Join(pieces[1..], sep)
  }

  /**
   * The segments a path scan visits: the pieces of the path split at the
   * separator, without the empty piece in front of one leading separator.
   */
  function Segments(path: string, sep: char): seq<string>
  {
    if |path| > 0 && path[0] == sep then Split(path[1..], sep) else Split(path, sep)
  }

  /** Splitting loses nothing: joining the pieces gives the string back. */
  lemma {:induction false} JoinSplit(t: string, sep: char)
    ensures Join(Split(t, sep), sep) == t
    decreases |t|
  {
    if t == [] {
    } else {
      var rest := Split(t[1..], sep);
      JoinSplit(t[1..], sep);
      if t[0] == sep {
        assert Split(t, sep) == [""] + rest;
        assert t == "" + [sep] + t[1..];
      } else if |rest| == 1 {
        assert Split(t, sep) == [[t[0]] + rest[0]];
        assert t == [t[0]] + t[1..];
      } else {
        var r := Split(t, sep);
        assert r[1..] == rest[1..];
        assert Join(rest, sep) == rest[0] + [sep] + Join(rest[1..], sep);
        calc {
          Join(r, sep);
          r[0] + [sep] + Join(r[1..], sep);
          ([t[0]] + rest[0]) + [sep] + Join(rest[1..], sep);
          [t[0]] + (rest[0] + [sep] + Join(rest[1..], sep));
          [t[0]] + t[1..];
          t;
        }
      }
    }
  }

  /** A separator-free prefix followed by a separator is split off as one piece. */
  lemma {:induction false} SplitPrefix(p: string, sep: char, u: string)
    requires sep !in p
    ensures Split(p + [sep] + u, sep) == [p] + Split(u, sep)
    decreases |p|
  {
    var t := p + [sep] + u;
    if p == [] {
      assert t[0] == sep && t[1..] == u;
    } else {
      assert t[0] == p[0] && t[1..] == p[1..] + [sep] + u;
      SplitPrefix(p[1..], sep, u);
      assert [p[0]] + p[1..] == p;
    }
  }

  /** A separator-free string is a single piece. */
  lemma {:induction false} SplitPiece(p: string, sep: char)
    requires sep !in p
    ensures Split(p, sep) == [p]
    decreases |p|
  {
    if p != [] {
      assert p[1..] + [] == p[1..];
      SplitPiece(p[1..], sep);
      assert [p[0]] + p[1..] == p;
    }
  }

  /**
   * Splitting undoes joining: any non-empty sequence of separator-free
   * pieces is exactly the split of its join, so `Split` is the only way to
   * cut a path into such pieces.
   */
  lemma {:induction false} SplitJoin(pieces: seq<string>, sep: char)
    requires |pieces| >= 1
    requires forall i :: 0 <= i < |pieces| ==> sep !in pieces[i]
    ensures Split(Join(pieces, sep), sep) == pieces
    decreases |pieces|
  {
    if |pieces| == 1 {
      SplitPiece(pieces[0], sep);
    } else {
      SplitJoin(pieces[1..], sep);
      SplitPrefix(pieces[0], sep, Join(pieces[1..], sep));
      assert [pieces[0]] + pieces[1..] == pieces;
    }
  }

  /**
   * The visited segments are separator-free and join back to the path
   * with its one leading separator (if any) removed.
   */
  lemma SegmentsJoin(path: string, sep: char)
    ensures forall i :: 0 <= i < |Segments(path, sep)| ==> sep !in Segments(path, sep)[i]
    ensures Join(Segments(path, sep), sep)
      == if |path| > 0 && path[0] == sep then path[1..] else path
  {
    if |path| > 0 && path[0] == sep {
      JoinSplit(path[1..], sep);
    } else {
      JoinSplit(path, sep);
    }
  }
}
