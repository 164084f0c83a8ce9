/** Splitting a sentence into comma-separated fields.

    The repository holds two behaviourally different `split` functions:
    - src/gps.cpp and the draft gps.cpp push every piece ended by a delimiter
      and then the text after the last delimiter, but only when it is
      non-empty (`Split`, computed by `SplitLoop`);
    - split.cpp pushes every piece ended by a delimiter and never the text
      after the last one (`SplitDrop`, computed by `SplitDropLoop`).
    Both are stated against `Segments`, the reference definition of the
    delimiter-free pieces of a string, which is characterised by `Join`. */
module Split {

  /** Number of occurrences of d in s. */
  function Count(s: string, d: char): nat {
    if |s| == 0 then 0 else Count(s[..|s| - 1], d) + (if s[|s| - 1] == d then 1 else 0)
  }

  /** The pieces with one d between each two neighbours. */
  function Join(ps: seq<string>, d: char): string {
    if |ps| == 0 then ""
    else if |ps| == 1 then ps[0]
    else Join(ps[..|ps| - 1], d) + [d] + ps[|ps| - 1]
  }

  /** Each piece followed by d, all concatenated. */
  function Terminated(ps: seq<string>, d: char): string {
    if |ps| == 0 then "" else Terminated(ps[..|ps| - 1], d) + ps[|ps| - 1] + [d]
  }

  predicate NoDelim(ps: seq<string>, d: char) {
    forall i :: 0 <= i < |ps| ==> d !in ps[i]
  }

  /** The maximal delimiter-free segments of s, in order, empty ones included:
      one more segment than there are delimiters. `SegmentsJoin` shows that
      joining them gives s back and `SegmentsOfJoin` that no other list of
      delimiter-free pieces does. */
  function Segments(s: string, d: char): (r: seq<string>)
    ensures |r| == Count(s, d) + 1
  {
    if |s| == 0 then [""]
    else
      var p := Segments(s[..|s| - 1], d);
      var c := s[|s| - 1];
      if c == d then p + [""] else p[..|p| - 1] + [p[|p| - 1] + [c]]
  }

  /** The segments of s contain no delimiter and join back to s. */
  lemma {:induction false} SegmentsJoin(s: string, d: char)
    ensures NoDelim(Segments(s, d), d)
    ensures Join(Segments(s, d), d) == s
    decreases |s|
  {
    if |s| > 0 {
      var s', c := s[..|s| - 1], s[|s| - 1];
      SegmentsJoin(s', d);
      assert s == s' + [c];
      SegmentsSnoc(s', c, d);
      SegmentsJoinStep(Segments(s', d), c, d);
    }
  }

  lemma SegmentsJoinStep(p: seq<string>, c: char, d: char)
    requires |p| >= 1 && NoDelim(p, d)
    ensures var r := if c == d then p + [""] else p[..|p| - 1] + [p[|p| - 1] + [c]];
      NoDelim(r, d) && Join(r, d) == Join(p, d) + [c]
  {
    if c == d {
      assert (p + [""])[..|p|] == p;
    } else {
      var last := p[|p| - 1] + [c];
      var r := p[..|p| - 1] + [last];
      assert r[..|r| - 1] == p[..|p| - 1];
      assert |p| > 1 ==> Join(p, d) == Join(p[..|p| - 1], d) + [d] + p[|p| - 1];
      assert d !in p[|p| - 1];
    }
  }

  /** The text after the last delimiter of s (all of s when it has none). */
  function Trailing(s: string, d: char): string {
    var segs := Segments(s, d);
    segs[|segs| - 1]
  }

  /** The fields src/gps.cpp's `split` returns: every segment, except that the
      last one is dropped when it is empty. */
  function Split(s: string, d: char): (r: seq<string>)
    ensures NoDelim(r, d)
    ensures |r| == Count(s, d) + (if Trailing(s, d) != "" then 1 else 0)
    ensures Trailing(s, d) != "" ==> Join(r, d) == s
    ensures Trailing(s, d) == "" && |s| > 0 ==> Join(r, d) + [d] == s
    ensures |s| == 0 ==> r == []
  {
    var segs := Segments(s, d);
    SegmentsJoin(s, d);
    if segs[|segs| - 1] != "" then segs
    else
      var r := segs[..|segs| - 1];
      if |s| > 0 then
        JoinDropEmpty(segs, d);
        r
      else r
  }

  /** The fields split.cpp's `split` returns: every segment ended by a
      delimiter; the text after the last delimiter is never kept. */
  function SplitDrop(s: string, d: char): (r: seq<string>)
    ensures NoDelim(r, d)
    ensures |r| == Count(s, d)
    ensures Terminated(r, d) + Trailing(s, d) == s
  {
    var segs := Segments(s, d);
    SegmentsJoin(s, d);
    TerminatedJoin(segs, d);
    segs[..|segs| - 1]
  }

  /** Joining pieces whose last one is empty ends with the delimiter. */
  lemma JoinDropEmpty(ps: seq<string>, d: char)
    requires |ps| >= 2 && ps[|ps| - 1] == ""
    ensures Join(ps[..|ps| - 1], d) + [d] == Join(ps, d)
  {
  }

  /** Join and Terminated agree: the terminated initial pieces followed by
      the last piece are the joined pieces. */
  lemma {:induction false} TerminatedJoin(ps: seq<string>, d: char)
    requires |ps| >= 1
    ensures Terminated(ps[..|ps| - 1], d) + ps[|ps| - 1] == Join(ps, d)
    decreases |ps|
  {
    if |ps| == 1 {
      assert ps[..0] == [];
    } else {
      var init := ps[..|ps| - 1];
      TerminatedJoin(init, d);
      assert init[..|init| - 1] == ps[..|ps| - 2];
      assert Terminated(init, d) == Terminated(ps[..|ps| - 2], d) + ps[|ps| - 2] + [d];
    }
  }

  /** The loop of src/gps.cpp's `split` (the draft gps.cpp's is the same):
      characters accumulate in a buffer that is pushed at each delimiter, and
      the buffer left at the end is pushed only if it is non-empty. */
  method SplitLoop(sentence: string, delim: char) returns (parsed: seq<string>)
    ensures parsed == Split(sentence, delim)
  {
    parsed := [];
    var buffer := "";
    for i := 0 to |sentence|
      invariant parsed + [buffer] == Segments(sentence[..i], delim)
    {
      assert sentence[..i + 1][..i] == sentence[..i];
      if sentence[i] != delim {
        buffer := buffer + [sentence[i]];
      } else {
        parsed := parsed + [buffer];
        buffer := "";
      }
    }
    assert sentence[..|sentence|] == sentence;
    if buffer != "" {
      parsed := parsed + [buffer];
    }
  }

  /** The loop of split.cpp's `split`: the same buffer, but nothing is pushed
      after the loop. */
  method SplitDropLoop(sentence: string, d: char) returns (parsed: seq<string>)
    ensures parsed == SplitDrop(sentence, d)
  {
    parsed := [];
    var buffer := "";
    for i := 0 to |sentence|
      invariant parsed + [buffer] == Segments(sentence[..i], d)
    {
      assert sentence[..i + 1][..i] == sentence[..i];
      if sentence[i] != d {
        buffer := buffer + [sentence[i]];
      } else {
        parsed := parsed + [buffer];
        buffer := "";
      }
    }
    assert sentence[..|sentence|] == sentence;
  }

  // Properties

  /** The last segment is empty exactly when s is empty or ends with the delimiter. */
  lemma TrailingEmpty(s: string, d: char)
    ensures Trailing(s, d) == "" <==> |s| == 0 || s[|s| - 1] == d
  {
    if |s| > 0 {
      var p := Segments(s[..|s| - 1], d);
      if s[|s| - 1] != d {
        assert Trailing(s, d) == p[|p| - 1] + [s[|s| - 1]];
      }
    }
  }

  /** The two variants differ only in the trailing segment: src/gps.cpp's
      `split` is split.cpp's plus the text after the last delimiter when
      that text is non-empty. */
  lemma SplitVariants(s: string, d: char)
    ensures Split(s, d) == SplitDrop(s, d) + (if Trailing(s, d) != "" then [Trailing(s, d)] else [])
  {
  }

  /** Round trip: when s does not end with the delimiter, joining the fields
      of `Split` gives s back. */
  lemma SplitJoin(s: string, d: char)
    requires |s| == 0 || s[|s| - 1] != d
    ensures Join(Split(s, d), d) == s
  {
    TrailingEmpty(s, d);
  }

  /** Uniqueness of `Segments`: any non-empty list of delimiter-free pieces is
      the segment list of its join. */
  lemma {:induction false} SegmentsOfJoin(ps: seq<string>, d: char)
    requires |ps| >= 1 && NoDelim(ps, d)
    ensures Segments(Join(ps, d), d) == ps
    decreases |ps|
  {
    if |ps| == 1 {
      SegmentsOfPlain(ps[0], d);
    } else {
      var init, last := ps[..|ps| - 1], ps[|ps| - 1];
      assert NoDelim(init, d);
      assert d !in last;
      SegmentsOfJoin(init, d);
      assert Join(ps, d) == Join(init, d) + [d] + last;
      SegmentsAppend(Join(init, d), last, d);
      SegmentsOfPlain(last, d);
      assert init + [last] == ps;
    }
  }

  /** Split inverts Join: delimiter-free pieces joined by the delimiter are
      split back into the same pieces, empty ones between adjacent
      delimiters included, as long as the last piece is non-empty. */
  lemma SplitOfJoin(ps: seq<string>, d: char)
    requires |ps| >= 1 && NoDelim(ps, d) && ps[|ps| - 1] != ""
    ensures Split(Join(ps, d), d) == ps
  {
    SegmentsOfJoin(ps, d);
  }

  /** split.cpp's split inverts Terminated: pieces each followed by the
      delimiter, then any delimiter-free tail, give back exactly the pieces. */
  lemma SplitDropOfTerminated(ps: seq<string>, tail: string, d: char)
    requires NoDelim(ps, d) && d !in tail
    ensures SplitDrop(Terminated(ps, d) + tail, d) == ps
  {
    var qs := ps + [tail];
    assert NoDelim(qs, d);
    TerminatedJoin(qs, d);
    assert qs[..|qs| - 1] == ps;
    SegmentsOfJoin(qs, d);
  }

  /** A delimiter-free string is its own single segment. */
  lemma {:induction false} SegmentsOfPlain(t: string, d: char)
    requires d !in t
    ensures Segments(t, d) == [t]
    decreases |t|
  {
    if |t| > 0 {
      SegmentsOfPlain(t[..|t| - 1], d);
      assert t[..|t| - 1] + [t[|t| - 1]] == t;
    }
  }

  /** A delimiter separates the segments of what precedes it from those of what follows. */
  lemma {:induction false} SegmentsAppend(x: string, t: string, d: char)
    ensures Segments(x + [d] + t, d) == Segments(x, d) + Segments(t, d)
    decreases |t|
  {
    if |t| == 0 {
      assert x + [d] + t == x + [d];
      SegmentsSnoc(x, d, d);
    } else {
      var t', c := t[..|t| - 1], t[|t| - 1];
      SegmentsAppend(x, t', d);
      assert x + [d] + t == (x + [d] + t') + [c];
      assert t == t' + [c];
      SegmentsAppendStep(x, t', c, d);
    }
  }

  lemma SegmentsAppendStep(x: string, t': string, c: char, d: char)
    requires Segments(x + [d] + t', d) == Segments(x, d) + Segments(t', d)
    ensures Segments((x + [d] + t') + [c], d) == Segments(x, d) + Segments(t' + [c], d)
  {
    SegmentsSnoc(x + [d] + t', c, d);
    SegmentsSnoc(t', c, d);
    var sx, st := Segments(x, d), Segments(t', d);
    if c != d {
      ExtendLast(sx, st, c);
    } else {
      assert (sx + st) + [""] == sx + (st + [""]);
    }
  }

  /** Extending the last piece of a concatenation extends the last piece of its second part. */
  lemma ExtendLast(sx: seq<string>, st: seq<string>, c: char)
    requires |st| >= 1
    ensures var p := sx + st;
      p[..|p| - 1] + [p[|p| - 1] + [c]] == sx + (st[..|st| - 1] + [st[|st| - 1] + [c]])
  {
    var p := sx + st;
    assert p[..|p| - 1] == sx + st[..|st| - 1];
    assert p[|p| - 1] == st[|st| - 1];
  }

  /** How one more character changes the segments: a delimiter opens a new,
      empty segment; any other character extends the last one. */
  lemma SegmentsSnoc(s: string, c: char, d: char)
    ensures var p := Segments(s, d);
      Segments(s + [c], d) == if c == d then p + [""] else p[..|p| - 1] + [p[|p| - 1] + [c]]
  {
    assert (s + [c])[..|s|] == s;
  }

  /** The number of pieces src/gps.cpp's `split` returns: the number of
      delimiters, plus one when text follows the last delimiter. */
  lemma SplitCount(s: string, d: char)
    ensures |Split(s, d)| == Count(s, d) + (if |s| > 0 && s[|s| - 1] != d then 1 else 0)
  {
    TrailingEmpty(s, d);
  }
}
