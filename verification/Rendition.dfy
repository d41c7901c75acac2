/** What escape sequences do to the ports and to the attribute, and rendition sequences written out and read back. */
module Rendition {
  import opened Digits
  import opened Int32
  import opened Terminal
  import opened Escape
  import Printfmt

  /** What a token sends to either port. */
  function TokenBytes(t: Token): seq<Ch> {
    match t
    case Plain(c) => Sent(c)
    case Literal(c) => Sent(ESC) + Sent(c)
    case _ => []
  }

  function Bytes(ts: seq<Token>): seq<Ch> {
    if ts == [] then [] else TokenBytes(ts[0]) + Bytes(ts[1..])
  }

  lemma TokenSends(o: Output, t: Token)
    requires o.doc.Ok()
    ensures ApplyOne(o, t).serial == o.serial + TokenBytes(t)
    ensures ApplyOne(o, t).lpt == o.lpt + TokenBytes(t)
  {
    hide Output.Print, Sent;
    match t
    case Plain(c) => PrintSends(o, c);
    case Literal(c) =>
      PrintSends(o, ESC);
      PrintSends(o.Print(ESC), c);
    case _ =>
  }

  lemma {:induction false} ApplySends(o: Output, ts: seq<Token>)
    requires o.doc.Ok()
    ensures Apply(o, ts).serial == o.serial + Bytes(ts)
    ensures Apply(o, ts).lpt == o.lpt + Bytes(ts)
    decreases |ts|
  {
    hide TokenBytes, ApplyOne;
    if ts != [] {
      TokenSends(o, ts[0]);
      ApplySends(ApplyOne(o, ts[0]), ts[1..]);
    }
  }

  /** Both ports get the stream without its control sequences, five spaces after every tab. */
  lemma PortsFilter(t: Term, cs: seq<Ch>)
    requires t.Ok() && t.parser.esc == 0
    ensures Run(t, cs).out.serial == t.out.serial + Bytes(Tokens(cs))
    ensures Run(t, cs).out.lpt == t.out.lpt + Bytes(Tokens(cs))
  {
    StreamMeaning(t, cs);
    ApplySends(t.out, Tokens(cs));
  }

  /** Bytes of text, without an escape among them. */
  ghost predicate IsText(cs: seq<Ch>) {
    forall i | 0 <= i < |cs| :: cs[i] < 256 && cs[i] != 0x1b
  }

  /** Text as it is, five spaces after every tab. */
  function TabsOut(cs: seq<Ch>): seq<Ch> {
    if cs == [] then []
    else if cs[0] == 9 then [9, 0x20, 0x20, 0x20, 0x20, 0x20] + TabsOut(cs[1..])
    else [cs[0]] + TabsOut(cs[1..])
  }

  lemma SentByte(c: Ch)
    requires c < 256
    ensures Low(c) == c && Sent(c) == if c == 9 then [9, 0x20, 0x20, 0x20, 0x20, 0x20] else [c]
  {
    assert Low(c) == c;
    assert [c] + Spaces() == [c, SPACE, SPACE, SPACE, SPACE, SPACE];
  }

  lemma {:induction false} TextBytes(cs: seq<Ch>)
    requires IsText(cs)
    ensures Bytes(Tokens(cs)) == TabsOut(cs)
    decreases |cs|
  {
    if cs != [] {
      hide Sent, Low;
      SentByte(cs[0]);
      TextBytes(cs[1..]);
      assert Tokens(cs) == [Plain(cs[0])] + Tokens(cs[1..]);
    }
  }

  /** Text goes to both ports byte by byte, with five spaces after every tab. */
  lemma TextSent(t: Term, cs: seq<Ch>)
    requires t.Ok() && t.parser.esc == 0 && IsText(cs)
    ensures Run(t, cs).out.serial == t.out.serial + TabsOut(cs)
    ensures Run(t, cs).out.lpt == t.out.lpt + TabsOut(cs)
  {
    hide Run, Tokens, Bytes, TabsOut;
    PortsFilter(t, cs);
    TextBytes(cs);
  }

  /** The attribute after a stream's tokens: only rendition sequences change it. */
  function TokensAttr(attr: Cell, ts: seq<Token>): Cell
    decreases |ts|
  {
    if ts == [] then attr
    else TokensAttr(if ts[0].Rendering? then WithParams(attr, Four(ts[0].ps)) else attr, ts[1..])
  }

  lemma PrintKeepsAttr(o: Output, c: Ch)
    requires o.doc.Ok()
    ensures o.Print(c).doc.attr == o.doc.attr
  {
  }

  lemma {:induction false} ApplyAttr(o: Output, ts: seq<Token>)
    requires o.doc.Ok()
    ensures Apply(o, ts).doc.attr == TokensAttr(o.doc.attr, ts)
    decreases |ts|
  {
    hide Output.Print, WithParams, Four;
    if ts != [] {
      match ts[0] {
        case Plain(c) => PrintKeepsAttr(o, c);
        case Literal(c) =>
          PrintKeepsAttr(o, ESC);
          PrintKeepsAttr(o.Print(ESC), c);
        case _ =>
      }
      ApplyAttr(ApplyOne(o, ts[0]), ts[1..]);
    }
  }

  /** The attribute after any byte stream is what its rendition sequences make of it. */
  lemma AttributeOfStream(t: Term, cs: seq<Ch>)
    requires t.Ok() && t.parser.esc == 0
    ensures Run(t, cs).out.doc.attr == TokensAttr(t.out.doc.attr, Tokens(cs))
  {
    StreamMeaning(t, cs);
    ApplyAttr(t.out, Tokens(cs));
  }

  /** A parameter as it is written: left out, or a number in decimal. */
  datatype Param = Absent | Number(n: nat)

  function ParamValue(p: Param): int {
    if p.Absent? then 0 else p.n
  }

  function DigitChar(d: nat): Ch
    requires d < 10
  {
    [0x30, 0x31, 0x32, 0x33, 0x34, 0x35, 0x36, 0x37, 0x38, 0x39][d]
  }

  lemma DigitCharValue(d: nat)
    requires d < 10
    ensures Low(DigitChar(d)) == DigitChar(d) && IsDigit(DigitChar(d)) && DigitValue(DigitChar(d)) == d
  {
  }

  function Chars(ds: seq<nat>): (cs: seq<Ch>)
    requires Below(ds, 10)
    ensures |cs| == |ds|
  {
    if ds == [] then [] else [DigitChar(ds[0])] + Chars(ds[1..])
  }

  function Written(p: Param): seq<Ch> {
    match p
    case Absent => []
    case Number(n) => NumeralBelow(n, 10); Chars(Numeral(n, 10))
  }

  /** Parameters separated by semicolons. */
  function Encoded(ps: seq<Param>): seq<Ch> {
    if ps == [] then []
    else if |ps| == 1 then Written(ps[0])
    else Written(ps[0]) + [SEMICOLON] + Encoded(ps[1..])
  }

  function Values(ps: seq<Param>): seq<int> {
    seq(|ps|, i requires 0 <= i < |ps| => ParamValue(ps[i]))
  }

  /** These are the characters that `printnum` prints for a number in base 10. */
  lemma {:induction false} CharsPrinted(ds: seq<nat>)
    requires Below(ds, 10)
    ensures var cs, codes := Chars(ds), Printfmt.DigitCodes(ds);
            |cs| == |codes| == |ds| && forall i | 0 <= i < |cs| :: cs[i] as int == codes[i]
  {
    if ds != [] {
      DigitCharPrinted(ds[0]);
      CharsPrinted(ds[1..]);
    }
  }

  lemma DigitCharPrinted(d: nat)
    requires d < 10
    ensures DigitChar(d) as int == Printfmt.DigitCode(d)
  {
  }

  lemma {:induction false} CharsDigits(ds: seq<nat>)
    requires Below(ds, 10)
    ensures AllDigits(Chars(ds)) && DigitsOf(Chars(ds)) == ds
  {
    if ds != [] {
      DigitCharValue(ds[0]);
      CharsDigits(ds[1..]);
    }
  }

  /** A parameter that an `int` can hold. */
  predicate Small(p: Param) { ParamValue(p) <= INT_MAX }

  /** What the parser makes of a parameter. */
  function ReadValue(p: Param): int {
    match p
    case Absent => 0
    case Number(n) => FieldNumber(Numeral(n, 10))
  }

  lemma WrittenValue(p: Param)
    ensures AllDigits(Written(p)) && FieldNumber(DigitsOf(Written(p))) == ReadValue(p)
    ensures ReadValue(p) == ParamValue(p) <==> Small(p)
  {
    if p.Number? {
      NumeralBelow(p.n, 10);
      CharsDigits(Numeral(p.n, 10));
      NumeralValue(p.n, 10);
      FieldExact(Numeral(p.n, 10));
    }
  }

  lemma {:induction false} FieldEnds(field: seq<Ch>, rest: seq<Ch>)
    requires AllDigits(field) && AllBody(field + rest)
    requires rest == [] || Low(rest[0]) == SEMICOLON
    ensures FieldLength(field + rest) == |field|
  {
    if field == [] {
      assert field + rest == rest;
    } else {
      assert (field + rest)[0] == field[0] && (field + rest)[1..] == field[1..] + rest;
      FieldEnds(field[1..], rest);
    }
  }

  lemma LastField(field: seq<Ch>)
    requires AllDigits(field)
    ensures AllBody(field) && Numbers(field) == [FieldNumber(DigitsOf(field))]
  {
    assert field + [] == field && field[..|field|] == field;
    FieldEnds(field, []);
  }

  lemma FirstField(field: seq<Ch>, rest: seq<Ch>)
    requires AllDigits(field) && AllBody(rest)
    ensures AllBody(field + [SEMICOLON] + rest)
    ensures Numbers(field + [SEMICOLON] + rest) == [FieldNumber(DigitsOf(field))] + Numbers(rest)
  {
    var cs := field + ([SEMICOLON] + rest);
    assert cs == field + [SEMICOLON] + rest;
    FieldEnds(field, [SEMICOLON] + rest);
    assert cs[..|field|] == field && cs[|field| + 1..] == rest;
  }

  function ReadValues(ps: seq<Param>): seq<int> {
    seq(|ps|, i requires 0 <= i < |ps| => ReadValue(ps[i]))
  }

  /** The parameters as the parser reads them back, nothing at all reading as one 0. */
  lemma {:induction false} EncodedRead(ps: seq<Param>)
    ensures AllBody(Encoded(ps))
    ensures Numbers(Encoded(ps)) == if ps == [] then [0] else ReadValues(ps)
    decreases |ps|
  {
    if ps == [] {
      LastField([]);
    } else {
      hide Written, FieldNumber, Numbers, ReadValue;
      WrittenValue(ps[0]);
      assert ReadValues(ps) == [ReadValue(ps[0])] + ReadValues(ps[1..]);
      if |ps| == 1 {
        LastField(Written(ps[0]));
      } else {
        EncodedRead(ps[1..]);
        FirstField(Written(ps[0]), Encoded(ps[1..]));
      }
    }
  }

  /** The first `n` are read as they were written exactly when they are small. */
  lemma ReadExact(ps: seq<Param>, n: nat)
    requires n <= |ps|
    ensures ReadValues(ps)[..n] == Values(ps)[..n] <==> forall i | 0 <= i < n :: Small(ps[i])
  {
    hide Small, ReadValue, ParamValue;
    var read, written := ReadValues(ps)[..n], Values(ps)[..n];
    forall i | 0 <= i < n
      ensures read[i] == written[i] <==> Small(ps[i])
    {
      WrittenValue(ps[i]);
    }
  }

  /** Parameters written with semicolons between them read back exactly when an `int` can hold each of them. */
  lemma NumbersEncoded(ps: seq<Param>)
    requires ps != []
    ensures AllBody(Encoded(ps))
    ensures Numbers(Encoded(ps)) == Values(ps) <==> forall i | 0 <= i < |ps| :: Small(ps[i])
  {
    EncodedRead(ps);
    ReadExact(ps, |ps|);
    assert ReadValues(ps)[..|ps|] == ReadValues(ps) && Values(ps)[..|ps|] == Values(ps);
  }

  lemma FourRead(ps: seq<Param>)
    requires forall i | 0 <= i < |ps| && i < 4 :: Small(ps[i])
    ensures Four(ReadValues(ps)) == Four(Values(ps))
  {
    hide Small, ReadValue, ParamValue;
    var n := if |ps| < 4 then |ps| else 4;
    ReadExact(ps, n);
    assert Four(ReadValues(ps)) == ReadValues(ps)[..n] && Four(Values(ps)) == Values(ps)[..n];
  }

  lemma Opening(t: Term)
    requires t.Ok() && t.parser.esc == 0
    ensures Step(Step(t, ESC), BRACKET) == t.(parser := Parser(2, -1, []))
  {
    hide Output.Print;
  }

  lemma EncodedRun(t: Term, ps: seq<Param>)
    requires t.Ok() && t.parser.esc == 0
    ensures var u := Run(t, [ESC, BRACKET] + (Encoded(ps) + [LETTER_M]));
            && u.parser.esc == 0
            && u.out == t.out.Select(Four(if ps == [] then [0] else ReadValues(ps)))
  {
    hide Doc.Ok, Four, Output.Select, ReadValues, Step, Numbers, Encoded;
    Opening(t);
    var body := Encoded(ps) + [LETTER_M];
    var cs := [ESC, BRACKET] + body;
    EncodedRead(ps);
    assert cs[1..] == [BRACKET] + body && cs[1..][1..] == body;
    SequenceRun(Step(Step(t, ESC), BRACKET), Encoded(ps), LETTER_M);
  }

  /**
   * ESC '[' p1;...;pk 'm' from the idle state sends nothing, leaves the text alone, returns to
   * idle, and applies the first four parameters, which an `int` must hold, in order.
   */
  lemma RenditionRoundTrip(t: Term, ps: seq<Param>)
    requires t.Ok() && t.parser.esc == 0
    requires forall i | 0 <= i < |ps| && i < 4 :: Small(ps[i])
    ensures var u := Run(t, [ESC, BRACKET] + (Encoded(ps) + [LETTER_M]));
            && u.parser.esc == 0
            && u.out == t.out.Select(Four(if ps == [] then [0] else Values(ps)))
  {
    hide *;
    EncodedRun(t, ps);
    FourRead(ps);
  }
}
