/**
 * The meaning of a byte stream with escape sequences, read as a grammar with
 * lookahead, and the character-by-character parser of the console against it.
 */
module Escape {
  import opened Digits
  import opened Int32
  import opened Terminal

  /** A character, ESC with the character after it, a rendition sequence, or any other control sequence. */
  datatype Token = Plain(c: Ch) | Literal(c: Ch) | Rendering(ps: seq<int>) | Ignored

  predicate InBody(c: Ch) { IsDigit(Low(c)) || Low(c) == SEMICOLON }

  ghost predicate AllBody(cs: seq<Ch>) { forall i | 0 <= i < |cs| :: InBody(cs[i]) }

  ghost predicate AllDigits(cs: seq<Ch>) { forall i | 0 <= i < |cs| :: IsDigit(Low(cs[i])) }

  /** The length of the parameter part that `cs` starts with. */
  function BodyLength(cs: seq<Ch>): (n: nat)
    ensures n <= |cs| && AllBody(cs[..n]) && (n < |cs| ==> !InBody(cs[n]))
  {
    if cs == [] || !InBody(cs[0]) then 0 else 1 + BodyLength(cs[1..])
  }

  /** Where the first semicolon is, or the length of `cs`. */
  function FieldLength(cs: seq<Ch>): (n: nat)
    requires AllBody(cs)
    ensures n <= |cs| && AllDigits(cs[..n]) && (n < |cs| ==> Low(cs[n]) == SEMICOLON)
  {
    if cs == [] || Low(cs[0]) == SEMICOLON then 0 else 1 + FieldLength(cs[1..])
  }

  function DigitsOf(cs: seq<Ch>): seq<nat>
    requires AllDigits(cs)
  {
    if cs == [] then [] else [DigitValue(Low(cs[0]))] + DigitsOf(cs[1..])
  }

  /** What becomes of the number being read after some digits more. */
  function Accumulated(param: int, ds: seq<nat>): int
    decreases |ds|
  {
    if ds == [] then param else Accumulated(Extended(param, ds[0]), ds[1..])
  }

  /** The number that the digits of a field stand for, on 32 bits; without any it counts as 0. */
  function FieldNumber(ds: seq<nat>): nat {
    var v := Accumulated(-1, ds);
    if v < 0 then 0 else v
  }

  lemma {:induction false} AccumulatedExact(v: nat, ds: seq<nat>)
    requires Value(v, ds, 10) <= INT_MAX
    ensures Accumulated(v, ds) == Value(v, ds, 10)
    decreases |ds|
  {
    if ds != [] {
      ValueGrows(v * 10 + ds[0], ds[1..], 10);
      AccumulatedExact(v * 10 + ds[0], ds[1..]);
    }
  }

  /** That is the number as it is written exactly when an `int` can hold it. */
  lemma FieldExact(ds: seq<nat>)
    ensures FieldNumber(ds) == Value(0, ds, 10) <==> Value(0, ds, 10) <= INT_MAX
  {
    if Value(0, ds, 10) <= INT_MAX {
      AccumulatedExact(0, ds);
    }
    AccumulatedFits(-1, ds);
  }

  lemma {:induction false} AccumulatedFits(param: int, ds: seq<nat>)
    requires Fits(param)
    ensures Fits(Accumulated(param, ds))
    decreases |ds|
  {
    if ds != [] {
      AccumulatedFits(Extended(param, ds[0]), ds[1..]);
    }
  }

  /** The numbers between the semicolons; an empty field counts as 0. */
  function Numbers(cs: seq<Ch>): (ps: seq<int>)
    requires AllBody(cs)
    ensures 0 < |ps|
    decreases |cs|
  {
    var n := FieldLength(cs);
    [FieldNumber(DigitsOf(cs[..n]))] + if n < |cs| then Numbers(cs[n + 1..]) else []
  }

  /** No more than four parameters are looked at. */
  function Four(ps: seq<int>): seq<int> {
    if |ps| <= 4 then ps else ps[..4]
  }

  function Sequence(body: seq<Ch>, final: Ch): Token
    requires AllBody(body)
  {
    if Low(final) == LETTER_M then Rendering(Numbers(body)) else Ignored
  }

  /** The whole tokens a stream consists of. */
  function Tokens(cs: seq<Ch>): seq<Token>
    decreases |cs|
  {
    if cs == [] then []
    else if Low(cs[0]) != ESC then [Plain(cs[0])] + Tokens(cs[1..])
    else if |cs| == 1 then []
    else if Low(cs[1]) != BRACKET then [Literal(cs[1])] + Tokens(cs[2..])
    else
      var rest := cs[2..];
      var n := BodyLength(rest);
      if n == |rest| then [] else [Sequence(rest[..n], rest[n])] + Tokens(rest[n + 1..])
  }

  /** The escape sequence that the end of the stream cuts short. */
  function Unfinished(cs: seq<Ch>): seq<Ch>
    decreases |cs|
  {
    if cs == [] then []
    else if Low(cs[0]) != ESC then Unfinished(cs[1..])
    else if |cs| == 1 then cs
    else if Low(cs[1]) != BRACKET then Unfinished(cs[2..])
    else
      var rest := cs[2..];
      var n := BodyLength(rest);
      if n == |rest| then cs else Unfinished(rest[n + 1..])
  }

  function ApplyOne(o: Output, t: Token): (o': Output)
    requires o.doc.Ok()
    ensures o'.doc.Ok()
  {
    match t
    case Plain(c) => o.Print(c)
    case Literal(c) => o.Print(ESC).Print(c)
    case Rendering(ps) => o.Select(Four(ps))
    case Ignored => o
  }

  function Apply(o: Output, ts: seq<Token>): (o': Output)
    requires o.doc.Ok()
    ensures o'.doc.Ok()
    decreases |ts|
  {
    if ts == [] then o else Apply(ApplyOne(o, ts[0]), ts[1..])
  }

  /** Within a sequence, digits build up the current number. */
  lemma {:induction false} FieldRun(t: Term, cs: seq<Ch>)
    requires t.Ok() && t.parser.esc == 2 && AllDigits(cs)
    ensures Run(t, cs) == t.(parser := t.parser.(param := Accumulated(t.parser.param, DigitsOf(cs))))
    decreases |cs|
  {
    if cs != [] {
      var u := Step(t, cs[0]);
      assert u == t.(parser := t.parser.(param := Extended(t.parser.param, DigitValue(Low(cs[0])))));
      FieldRun(u, cs[1..]);
    }
  }

  lemma FourMore(a: seq<int>, v: int, b: seq<int>)
    ensures Four(Four(a + [v]) + b) == Four(a + ([v] + b))
  {
    if |a| < 4 {
      assert a + [v] + b == a + ([v] + b);
    }
  }

  lemma FieldPushed(t: Term, field: seq<Ch>)
    requires t.Ok() && t.parser.esc == 2 && t.parser.param == -1 && AllDigits(field)
    ensures var u := Run(t, field);
            && u.out == t.out && u.parser.esc == 2 && u.parser.params == t.parser.params
            && Pushed(u.parser) == Four(t.parser.params + [FieldNumber(DigitsOf(field))])
  {
    FieldRun(t, field);
  }

  lemma SemicolonStep(t: Term, c: Ch)
    requires t.Ok() && t.parser.esc == 2 && Low(c) == SEMICOLON
    ensures Step(t, c) == t.(parser := t.parser.(params := Pushed(t.parser), param := -1))
  {
  }

  /** Between '[' and the final character the numbers pile up, the first four of them. */
  lemma {:induction false} BodyRun(t: Term, cs: seq<Ch>)
    requires t.Ok() && t.parser.esc == 2 && t.parser.param == -1 && AllBody(cs)
    ensures var u := Run(t, cs);
            && u.out == t.out && u.parser.esc == 2
            && Pushed(u.parser) == Four(t.parser.params + Numbers(cs))
    decreases |cs|
  {
    hide Four, Pushed, FieldNumber, Parser.Ok, Doc.Ok, Step, Low;
    var n := FieldLength(cs);
    FieldPushed(t, cs[..n]);
    var u := Run(t, cs[..n]);
    if n == |cs| {
      assert cs == cs[..n];
      assert Numbers(cs) == [FieldNumber(DigitsOf(cs[..n]))];
    } else {
      assert cs == cs[..n] + cs[n..] && cs[n..][1..] == cs[n + 1..];
      RunConcat(t, cs[..n], cs[n..]);
      var w := Step(u, cs[n]);
      SemicolonStep(u, cs[n]);
      BodyRun(w, cs[n + 1..]);
      FourMore(t.parser.params, FieldNumber(DigitsOf(cs[..n])), Numbers(cs[n + 1..]));
    }
  }

  lemma SequenceRun(t: Term, body: seq<Ch>, final: Ch)
    requires t.Ok() && t.parser == Parser(2, -1, [])
    requires AllBody(body) && !InBody(final)
    ensures var u := Run(t, body + [final]);
            u.parser.esc == 0 && u.out == ApplyOne(t.out, Sequence(body, final))
  {
    hide Numbers, Four, Output.Select, Doc.Ok;
    BodyRun(t, body);
    RunConcat(t, body, [final]);
    assert [] + Numbers(body) == Numbers(body);
    var u := Run(t, body);
    assert [final][1..] == [];
    assert Run(t, body + [final]) == Step(u, final);
  }

  /**
   * For every byte stream, from the idle state, the console shows and sends what
   * the tokens of the stream say, and is idle again unless the stream ends
   * within a sequence.
   */
  lemma {:induction false} StreamMeaning(t: Term, cs: seq<Ch>)
    requires t.Ok() && t.parser.esc == 0
    ensures Run(t, cs).out == Apply(t.out, Tokens(cs))
    ensures Run(t, cs).parser.esc == var r := Unfinished(cs); if |r| < 2 then |r| else 2
    decreases |cs|
  {
    hide Numbers, Four, Low, Pushed, Extended, Output.Print, Output.Select;
    if cs == [] {
    } else if Low(cs[0]) != ESC {
      StreamMeaning(Step(t, cs[0]), cs[1..]);
    } else if |cs| == 1 {
    } else if Low(cs[1]) != BRACKET {
      assert cs[1..][1..] == cs[2..];
      StreamMeaning(Step(Step(t, cs[0]), cs[1]), cs[2..]);
    } else {
      assert cs[1..][1..] == cs[2..];
      var u := Step(Step(t, cs[0]), cs[1]);
      var rest := cs[2..];
      var n := BodyLength(rest);
      if n == |rest| {
        assert rest == rest[..n];
        BodyRun(u, rest);
      } else {
        assert rest == (rest[..n] + [rest[n]]) + rest[n + 1..];
        SequenceRun(u, rest[..n], rest[n]);
        RunConcat(u, rest[..n] + [rest[n]], rest[n + 1..]);
        StreamMeaning(Run(u, rest[..n] + [rest[n]]), rest[n + 1..]);
      }
    }
  }
}
