/** Numbers as one writes them for `strtol`, and what it reads. */
module StrtolGrammar {
  import opened Digits
  import opened Int32
  import opened Strtol

  datatype SignPart = NoSign | Plus | Minus

  datatype PrefixPart = NoPrefix | Hex | Octal

  /** A digit, and whether it is written as a capital. */
  datatype Digit = Digit(value: nat, capital: bool)

  /** Spaces and tabs, a sign, a prefix, digits. */
  datatype Literal = Literal(blanks: seq<int>, sign: SignPart, prefix: PrefixPart, digits: seq<Digit>)

  function SignText(s: SignPart): seq<int> {
    match s
    case NoSign => []
    case Plus => [0x2b]
    case Minus => [0x2d]
  }

  function PrefixText(p: PrefixPart): seq<int> {
    match p
    case NoPrefix => []
    case Hex => [0x30, 0x78]
    case Octal => [0x30]
  }

  /** 0 to 9, then letters. */
  function DigitChar(d: Digit): int {
    if d.value < 10 then 0x30 + d.value else if d.capital then 0x41 + d.value - 10 else 0x61 + d.value - 10
  }

  function DigitsText(ds: seq<Digit>): (s: seq<int>)
    ensures |s| == |ds|
  {
    if ds == [] then [] else [DigitChar(ds[0])] + DigitsText(ds[1..])
  }

  function Values(ds: seq<Digit>): (vs: seq<nat>)
    ensures |vs| == |ds|
  {
    if ds == [] then [] else [ds[0].value] + Values(ds[1..])
  }

  /** No character that a number in this base could go on with. */
  predicate Ends(s: seq<int>, base: nat) {
    s == [] ||
    (!(0x30 <= s[0] <= 0x39 && s[0] - 0x30 < base)
     && !(0x61 <= s[0] <= 0x7a && s[0] - 0x61 + 10 < base)
     && !(0x41 <= s[0] <= 0x5a && s[0] - 0x41 + 10 < base))
  }

  function Rest(l: Literal, tail: seq<int>): seq<int> { DigitsText(l.digits) + tail }

  function Signed(l: Literal, tail: seq<int>): seq<int> { PrefixText(l.prefix) + Rest(l, tail) }

  function Unblanked(l: Literal, tail: seq<int>): seq<int> { SignText(l.sign) + Signed(l, tail) }

  /** The literal with what follows it in the string. */
  function Text(l: Literal, tail: seq<int>): seq<int> { l.blanks + Unblanked(l, tail) }

  /** How many characters the literal has. */
  function Length(l: Literal): nat {
    |l.blanks| + |SignText(l.sign)| + |PrefixText(l.prefix)| + |l.digits|
  }

  /** The base that a prefix leads to, when the caller gives `base`. */
  predicate BaseIs(l: Literal, tail: seq<int>, base: int, effective: nat) {
    var r := Rest(l, tail);
    match l.prefix
    case Hex => (base == 0 || base == 16) && effective == 16
    case Octal => base == 0 && effective == 8 && (r == [] || r[0] != 0x78)
    case NoPrefix =>
      if base == 0 then effective == 10 && (r == [] || r[0] != 0x30)
      else effective == base && (base == 16 ==> |r| < 2 || r[0] != 0x30 || r[1] != 0x78)
  }

  /** Digits of the base, then nothing the number could go on with; and blanks and sign where they can be told apart. */
  ghost predicate WellFormed(l: Literal, tail: seq<int>, base: int, effective: nat) {
    && (forall i | 0 <= i < |l.blanks| :: l.blanks[i] == 0x20 || l.blanks[i] == 0x09)
    && BaseIs(l, tail, base, effective)
    && AllBelow(l.digits, effective) && AllBelow(l.digits, 36) && Ends(tail, effective)
    && (l.sign == NoSign ==> var u := Signed(l, tail);
                             u == [] || (u[0] != 0x20 && u[0] != 0x09 && u[0] != 0x2b && u[0] != 0x2d))
  }

  ghost predicate AllBelow(ds: seq<Digit>, base: nat) {
    ds != [] ==> ds[0].value < base && AllBelow(ds[1..], base)
  }

  lemma {:induction false} BlanksAre(blanks: seq<int>, s: seq<int>)
    requires forall i | 0 <= i < |blanks| :: blanks[i] == 0x20 || blanks[i] == 0x09
    requires s == [] || (s[0] != 0x20 && s[0] != 0x09)
    ensures Blanks(blanks + s) == |blanks|
    decreases |blanks|
  {
    if blanks == [] {
      assert blanks + s == s;
    } else {
      assert (blanks + s)[1..] == blanks[1..] + s;
      BlanksAre(blanks[1..], s);
    }
  }

  lemma DigitIs(d: Digit)
    requires d.value < 36
    ensures DigitValue(DigitChar(d)) == d.value
  {
  }

  lemma EndsIs(s: seq<int>, base: nat)
    requires Ends(s, base)
    ensures s == [] || !IsDigitIn(s[0], base)
  {
  }

  lemma ScanEnds(s: seq<int>, base: int, v: int)
    requires s == [] || !IsDigitIn(s[0], base)
    ensures Scan(s, base, v) == (v, 0)
  {
  }

  lemma {:induction false} DigitsScanned(ds: seq<Digit>, tail: seq<int>, base: nat, v: nat)
    requires AllBelow(ds, base) && AllBelow(ds, 36) && Ends(tail, base)
    ensures Scan(DigitsText(ds) + tail, base, Wrapped(v)) == (Wrapped(Value(v, Values(ds), base)), |ds|)
    decreases |ds|
  {
    hide Scan, Wrapped, DigitChar, DigitValue, Ends, Value;
    var s := DigitsText(ds) + tail;
    if ds == [] {
      assert s == tail;
      EndsIs(tail, base);
      ScanEnds(tail, base, Wrapped(v));
      NoValue(v, base);
    } else {
      var next := v * base + ds[0].value;
      DigitIs(ds[0]);
      assert s[0] == DigitChar(ds[0]) && s[1..] == DigitsText(ds[1..]) + tail;
      ScanFirst(s, base, Wrapped(v));
      WrappedDigit(v, base, ds[0].value);
      NextValue(v, ds, base, next);
      DigitsScanned(ds[1..], tail, base, next);
    }
  }

  lemma NoValue(v: nat, base: nat)
    ensures Value(v, Values([]), base) == v
  {
  }

  lemma NextValue(v: nat, ds: seq<Digit>, base: nat, next: nat)
    requires ds != [] && next == v * base + ds[0].value
    ensures Value(v, Values(ds), base) == Value(next, Values(ds[1..]), base)
  {
    assert Values(ds)[1..] == Values(ds[1..]);
  }

  lemma SignIs(l: Literal, tail: seq<int>)
    requires l.sign == NoSign ==> var u := Signed(l, tail); u == [] || (u[0] != 0x2b && u[0] != 0x2d)
    ensures Sign(Unblanked(l, tail)) == (|SignText(l.sign)|, l.sign == Minus)
  {
    hide Signed;
    assert [] + Signed(l, tail) == Signed(l, tail);
  }

  lemma PrefixIs(l: Literal, tail: seq<int>, base: int, effective: nat)
    requires BaseIs(l, tail, base, effective)
    ensures Prefix(Signed(l, tail), base) == (|PrefixText(l.prefix)|, effective)
  {
    hide Rest;
    assert [] + Rest(l, tail) == Rest(l, tail);
  }

  lemma PartsOf(l: Literal, tail: seq<int>)
    ensures var s, b := Text(l, tail), |l.blanks|;
            var i := b + |SignText(l.sign)|;
            var j := i + |PrefixText(l.prefix)|;
            && j <= |s| && s[b..] == Unblanked(l, tail) && s[i..] == Signed(l, tail) && s[j..] == Rest(l, tail)
            && s == l.blanks + Unblanked(l, tail)
  {
    hide Rest;
    var s, b := Text(l, tail), |l.blanks|;
    var i := b + |SignText(l.sign)|;
    assert s[b..] == Unblanked(l, tail);
    assert s[i..] == Signed(l, tail);
    assert s[i + |PrefixText(l.prefix)|..] == Rest(l, tail);
  }

  /**
   * `strtol` takes the whole of a literal and no more, and gives its value on 32 bits: the number that its digits
   * stand for in the base that the prefix and the caller's base lead to, with its sign.
   */
  lemma {:induction false} LiteralRead(l: Literal, tail: seq<int>, base: int, effective: nat)
    requires WellFormed(l, tail, base, effective)
    ensures var n := Value(0, Values(l.digits), effective);
            Parsed(Text(l, tail), base) == (if l.sign == Minus then Wrapped(-(n as int)) else Wrapped(n), Length(l))
  {
    hide Blanks, Sign, Prefix, Scan, Wrapped, DigitsText, Values, Value, AllBelow, Ends, BaseIs, Parsed, Text,
      Unblanked;
    var s, u := Text(l, tail), Unblanked(l, tail);
    PartsOf(l, tail);
    FirstAfterBlanks(l, tail, base, effective);
    BlanksAre(l.blanks, u);
    SignIs(l, tail);
    PrefixIs(l, tail, base, effective);
    ZeroWrapped();
    DigitsScanned(l.digits, tail, effective, 0);
    WrappedMinus(Value(0, Values(l.digits), effective));
    var b, i := |l.blanks|, |l.blanks| + |SignText(l.sign)|;
    ParsedParts(s, base, b, i, i + |PrefixText(l.prefix)|);
  }

  lemma ZeroWrapped()
    ensures Wrapped(0) == 0
  {
  }

  lemma FirstAfterBlanks(l: Literal, tail: seq<int>, base: int, effective: nat)
    requires WellFormed(l, tail, base, effective)
    ensures var u := Unblanked(l, tail); u == [] || (u[0] != 0x20 && u[0] != 0x09)
  {
    hide Signed;
    assert [] + Signed(l, tail) == Signed(l, tail);
  }
}
