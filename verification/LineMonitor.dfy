/** The grading script's line monitor: complete lines out of output that arrives in arbitrary chunks. */
module LineMonitor {

  type byte = x: int | 0 <= x < 256

  const NEWLINE: byte := 10

  /** Where the first newline is, or the length of `s`. */
  function LineEnd(s: seq<byte>): (n: nat)
    ensures n <= |s| && (n < |s| <==> NEWLINE in s) && NEWLINE !in s[..n]
    ensures n < |s| ==> s[n] == NEWLINE
  {
    if s == [] || s[0] == NEWLINE then 0 else 1 + LineEnd(s[1..])
  }

  /** The complete lines of a stream, without their newlines. */
  function Lines(s: seq<byte>): seq<seq<byte>>
    decreases |s|
  {
    var n := LineEnd(s);
    if n == |s| then [] else [s[..n]] + Lines(s[n + 1..])
  }

  /** What follows the last newline. */
  function Rest(s: seq<byte>): (r: seq<byte>)
    decreases |s|
  {
    var n := LineEnd(s);
    if n == |s| then s else Rest(s[n + 1..])
  }

  lemma LineOff(s: seq<byte>)
    ensures NEWLINE !in s ==> Lines(s) == [] && Rest(s) == s
    ensures NEWLINE in s ==> var n := LineEnd(s);
              n < |s| && Lines(s) == [s[..n]] + Lines(s[n + 1..]) && Rest(s) == Rest(s[n + 1..])
  {
    hide LineEnd;
  }

  /** Lines with their newlines put back, and what follows the last. */
  function Rejoined(lines: seq<seq<byte>>, rest: seq<byte>): seq<byte> {
    if lines == [] then rest else lines[0] + [NEWLINE] + Rejoined(lines[1..], rest)
  }

  /** Lines and rest are the stream cut at its newlines, and nowhere else. */
  lemma {:induction false} LinesAre(s: seq<byte>)
    ensures Rejoined(Lines(s), Rest(s)) == s && NEWLINE !in Rest(s)
    ensures forall l | l in Lines(s) :: NEWLINE !in l
    decreases |s|
  {
    hide LineEnd;
    var n := LineEnd(s);
    if n < |s| {
      hide Lines, Rest, Rejoined;
      var tail := s[n + 1..];
      LineOff(s);
      LinesAre(tail);
      RejoinedMore(s[..n], Lines(tail), Rest(tail));
      CutOnce(s, n);
    } else {
      NoLines(s);
    }
  }

  lemma CutOnce(s: seq<byte>, n: nat)
    requires n < |s|
    ensures s == s[..n] + [s[n]] + s[n + 1..]
  {
  }

  lemma NoLines(s: seq<byte>)
    requires LineEnd(s) == |s|
    ensures Lines(s) == [] && Rest(s) == s && Rejoined([], s) == s
  {
    hide LineEnd;
  }

  lemma RejoinedMore(line: seq<byte>, lines: seq<seq<byte>>, rest: seq<byte>)
    ensures Rejoined([line] + lines, rest) == line + [NEWLINE] + Rejoined(lines, rest)
  {
    assert ([line] + lines)[1..] == lines;
  }

  /** The lines of the examined ones that match go to the callback. */
  function Matching(lines: seq<seq<byte>>, matches: seq<byte> -> bool): seq<seq<byte>> {
    if lines == [] then []
    else Matching(lines[..|lines| - 1], matches) +
         if matches(lines[|lines| - 1]) then [lines[|lines| - 1]] else []
  }

  lemma MatchingMore(lines: seq<seq<byte>>, line: seq<byte>, matches: seq<byte> -> bool)
    ensures Matching(lines + [line], matches) == Matching(lines, matches) + if matches(line) then [line] else []
  {
    assert (lines + [line])[..|lines|] == lines;
  }

  /** Those are the matching lines, in the order of the lines. */
  lemma {:induction false} MatchingIs(a: seq<seq<byte>>, b: seq<seq<byte>>, matches: seq<byte> -> bool)
    ensures Matching(a + b, matches) == Matching(a, matches) + Matching(b, matches)
    ensures (forall l | l in a :: matches(l)) ==> Matching(a, matches) == a
    ensures (forall l | l in a :: !matches(l)) ==> Matching(a, matches) == []
    decreases |a| + |b|
  {
    if b != [] {
      assert (a + b)[..|a + b| - 1] == a + b[..|b| - 1];
      MatchingIs(a, b[..|b| - 1], matches);
    } else {
      assert a + b == a;
      if a != [] {
        MatchingIs(a[..|a| - 1], [], matches);
        assert a == a[..|a| - 1] + [a[|a| - 1]];
      }
    }
  }

  class CallOnLine {
    /** Whether the regular expression matches a line once that is decoded. */
    const matches: seq<byte> -> bool
    var buf: seq<byte>
    /** The lines that the callback was called with. */
    var called: seq<seq<byte>>
    /** All lines examined so far, and all output received. */
    ghost var examined: seq<seq<byte>>
    ghost var received: seq<byte>

    ghost predicate Valid()
      reads this
    {
      examined == Lines(received) && buf == Rest(received) && called == Matching(examined, matches)
    }

    constructor (matches: seq<byte> -> bool)
      ensures Valid() && received == [] && this.matches == matches
    {
      this.matches := matches;
      buf, called, examined, received := [], [], [], [];
    }

    method HandleOutput(output: seq<byte>)
      requires Valid()
      modifies this
      ensures Valid() && received == old(received) + output
    {
      hide Lines, Rest, LineEnd, Matching;
      SplitAnywhere(received, output);
      LineOff(buf + output);
      received := received + output;
      buf := buf + output;
      while NEWLINE in buf
        invariant examined + Lines(buf) == Lines(received) && Rest(buf) == Rest(received)
        invariant called == Matching(examined, matches) && received == old(received) + output
        decreases |buf|
      {
        LineOff(buf);
        var n := LineEnd(buf);
        var line := buf[..n];
        assert examined + ([line] + Lines(buf[n + 1..])) == (examined + [line]) + Lines(buf[n + 1..]);
        MatchingMore(examined, line, matches);
        buf := buf[n + 1..];
        examined := examined + [line];
        if matches(line) {
          called := called + [line];
        }
      }
      LineOff(buf);
    }
  }

  lemma {:induction false} FirstLine(a: seq<byte>, b: seq<byte>)
    ensures LineEnd(a + b) == if NEWLINE in a then LineEnd(a) else |a| + LineEnd(b)
  {
    if a == [] {
      assert a + b == b;
    } else {
      assert (a + b)[1..] == a[1..] + b;
      FirstLine(a[1..], b);
    }
  }

  /** Wherever a stream is cut, its lines are those of the first part, then those of its rest and the second. */
  lemma {:induction false} SplitAnywhere(a: seq<byte>, b: seq<byte>)
    ensures Lines(a + b) == Lines(a) + Lines(Rest(a) + b)
    ensures Rest(a + b) == Rest(Rest(a) + b)
    decreases |a|
  {
    hide Lines, Rest, LineEnd;
    LineOff(a);
    if NEWLINE in a {
      var n := LineEnd(a);
      FirstLine(a, b);
      LineOff(a + b);
      assert (a + b)[..n] == a[..n] && (a + b)[n + 1..] == a[n + 1..] + b;
      SplitAnywhere(a[n + 1..], b);
    }
  }

  function Concat(chunks: seq<seq<byte>>): seq<byte> {
    if chunks == [] then [] else chunks[0] + Concat(chunks[1..])
  }

  /** A whole run over chunks: the lines examined, and what is kept. */
  function Run(kept: seq<byte>, chunks: seq<seq<byte>>): (seq<seq<byte>>, seq<byte>)
    decreases |chunks|
  {
    if chunks == [] then ([], kept)
    else
      var s := kept + chunks[0];
      var (lines, rest) := Run(Rest(s), chunks[1..]);
      (Lines(s) + lines, rest)
  }

  /** However the stream is cut into chunks, the same lines are examined and the same bytes are kept. */
  lemma {:induction false} ChunksDoNotMatter(kept: seq<byte>, chunks: seq<seq<byte>>)
    requires NEWLINE !in kept
    ensures Run(kept, chunks) == (Lines(kept + Concat(chunks)), Rest(kept + Concat(chunks)))
    decreases |chunks|
  {
    hide Lines, Rest, LineEnd;
    if chunks == [] {
      assert kept + [] == kept;
      LineOff(kept);
    } else {
      var s := kept + chunks[0];
      NoNewlineInRest(s);
      ChunksDoNotMatter(Rest(s), chunks[1..]);
      assert kept + Concat(chunks) == s + Concat(chunks[1..]);
      SplitAnywhere(s, Concat(chunks[1..]));
    }
  }

  lemma {:induction false} NoNewlineInRest(s: seq<byte>)
    ensures NEWLINE !in Rest(s)
    decreases |s|
  {
    hide Lines, Rest, LineEnd;
    LineOff(s);
    if NEWLINE in s {
      NoNewlineInRest(s[LineEnd(s) + 1..]);
    }
  }
}
