/** What single directives print, in terms of how they are written. */
module FormatMeaning {
  import opened CStrings
  import opened Digits
  import opened Int32
  import opened Printfmt
  import opened FormatGrammar
  import opened Slices
  import opened Vprintfmt

  /** A positive number as part of a directive. */
  function Dec(n: nat): Mod { Num(Numeral(n, 10)) }

  lemma DecIs(n: nat)
    requires 0 < n <= INT_MAX
    ensures ModOk(Dec(n)) && Wrapped(Value(0, Numeral(n, 10), 10)) == n
  {
    NumeralBelow(n, 10);
    NumeralLead(n, 10);
    NumeralValue(n, 10);
  }

  ghost predicate OnlyFlags(ms: seq<Mod>) {
    ms != [] ==> ms[0].Flag? && ModOk(ms[0]) && OnlyFlags(ms[1..])
  }

  /** Flags in front do not matter for width and precision. */
  lemma {:induction false} FlagsFirst(fs: seq<Mod>, ms: seq<Mod>, args: seq<Arg>)
    requires OnlyFlags(fs) && Readable(ms) && Supplied(ms, args)
    ensures Readable(fs + ms) && Supplied(fs + ms, args) && Events(fs + ms, args) == Events(ms, args)
    decreases |fs|
  {
    if fs == [] {
      assert fs + ms == ms;
    } else {
      assert (fs + ms)[1..] == fs[1..] + ms && (fs + ms)[0] == fs[0];
      FlagsFirst(fs[1..], ms, args);
    }
  }

  /** Width and precision of a directive from its beginning on. */
  function Read(ms: seq<Mod>, args: seq<Arg>): (int, int)
    requires Supplied(ms, args)
  {
    Widths(PLAIN, Events(ms, args))
  }

  lemma ReadFlags(fs: seq<Mod>)
    requires OnlyFlags(fs)
    ensures Readable(fs) && Supplied(fs, []) && Read(fs, []) == (-1, -1)
  {
    FlagsFirst(fs, [], []);
    assert fs + [] == fs;
  }

  /** One modifier in front of others. */
  lemma ModFirst(m: Mod, ms: seq<Mod>, args: seq<Arg>, more: seq<Arg>)
    requires ModOk(m) && Readable(ms) && (m.Num? && ms != [] ==> !ms[0].Num? && ms[0] != Flag('0'))
    requires if m.Star? then args != [] && args[0].Word? && more == args[1..] else more == args
    requires Supplied(ms, more)
    ensures Readable([m] + ms) && Supplied([m] + ms, args)
    ensures Events([m] + ms, args) == EventOf(m, args) + Events(ms, more)
  {
    assert ([m] + ms)[1..] == ms;
    assert [] + Events(ms, more) == Events(ms, more);
  }

  /** What a width that is decided and a number after it come to. */
  lemma WidthAlone(e: Event)
    ensures Widths(PLAIN, [e] + []) == (if e.Point? then 0 else e.v, -1)
  {
    EventFirst(e, [], PLAIN, PLAIN.(width := if e.Point? then 0 else e.v));
  }

  lemma WidthAndPrecision(e: Event, p: int)
    requires Decides(e)
    ensures Widths(PLAIN, [e] + ([Number(p)] + [])) == (if e.Point? then 0 else e.v, p)
  {
    var g := PLAIN.(width := if e.Point? then 0 else e.v);
    EventFirst(e, [Number(p)] + [], PLAIN, g);
    EventFirst(Number(p), [], g, g.(precision := p));
  }

  /** With a point between them; after a negative width the point makes it 0. */
  lemma WidthPointPrecision(w: int, p: int)
    ensures Widths(PLAIN, [Number(w)] + ([Point] + ([Number(p)] + []))) == (if w < 0 then 0 else w, p)
  {
    var g := PLAIN.(width := w);
    var h := g.(width := if w < 0 then 0 else w);
    EventFirst(Number(w), [Point] + ([Number(p)] + []), PLAIN, g);
    EventFirst(Point, [Number(p)] + [], g, h);
    EventFirst(Number(p), [], h, h.(precision := p));
  }

  lemma NoMods(args: seq<Arg>)
    ensures Readable([]) && Supplied([], args) && Events([], args) == []
  {
  }

  /** A number is the width. */
  lemma ReadWidth(fs: seq<Mod>, w: nat, args: seq<Arg>)
    requires OnlyFlags(fs) && 0 < w <= INT_MAX
    ensures var ms := fs + ([Dec(w)] + []); Readable(ms) && Supplied(ms, args) && Read(ms, args) == (w, -1)
  {
    hide Wrapped, Value, Numeral, Readable, Supplied, Events, Widths, OnlyFlags;
    DecIs(w);
    NoMods(args);
    ModFirst(Dec(w), [], args, args);
    FlagsFirst(fs, [Dec(w)] + [], args);
    WidthAlone(Number(w));
  }

  /** A number, a point, a number: width and precision. */
  lemma ReadBoth(fs: seq<Mod>, w: nat, p: nat, args: seq<Arg>)
    requires OnlyFlags(fs) && 0 < w <= INT_MAX && 0 < p <= INT_MAX
    ensures var ms := fs + ([Dec(w)] + ([Dot] + ([Dec(p)] + [])));
            Readable(ms) && Supplied(ms, args) && Read(ms, args) == (w, p)
  {
    hide Wrapped, Value, Numeral, Readable, Supplied, Events, Widths, OnlyFlags;
    DecIs(w);
    DecIs(p);
    NoMods(args);
    ModFirst(Dec(p), [], args, args);
    ModFirst(Dot, [Dec(p)] + [], args, args);
    ModFirst(Dec(w), [Dot] + ([Dec(p)] + []), args, args);
    FlagsFirst(fs, [Dec(w)] + ([Dot] + ([Dec(p)] + [])), args);
    WidthPointPrecision(w, p);
  }

  /** A point with nothing before it: width 0, and the precision. */
  lemma ReadPrecision(fs: seq<Mod>, p: nat, args: seq<Arg>)
    requires OnlyFlags(fs) && 0 < p <= INT_MAX
    ensures var ms := fs + ([Dot] + ([Dec(p)] + []));
            Readable(ms) && Supplied(ms, args) && Read(ms, args) == (0, p)
  {
    hide Wrapped, Value, Numeral, Readable, Supplied, Events, Widths, OnlyFlags;
    DecIs(p);
    NoMods(args);
    ModFirst(Dec(p), [], args, args);
    ModFirst(Dot, [Dec(p)] + [], args, args);
    FlagsFirst(fs, [Dot] + ([Dec(p)] + []), args);
    WidthAndPrecision(Point, p);
  }

  /** A zero after the point is a padding flag: there is no way to write a precision of 0 in digits. */
  lemma ReadNoPrecision(fs: seq<Mod>, w: nat, args: seq<Arg>)
    requires OnlyFlags(fs) && 0 < w <= INT_MAX
    ensures var ms := fs + ([Dec(w)] + ([Dot] + ([Flag('0')] + [])));
            Readable(ms) && Supplied(ms, args) && Read(ms, args) == (w, -1)
  {
    hide Wrapped, Value, Numeral, Readable, Supplied, Events, Widths, OnlyFlags;
    DecIs(w);
    NoMods(args);
    ModFirst(Flag('0'), [], args, args);
    ModFirst(Dot, [Flag('0')] + [], args, args);
    ModFirst(Dec(w), [Dot] + ([Flag('0')] + []), args, args);
    FlagsFirst(fs, [Dec(w)] + ([Dot] + ([Flag('0')] + [])), args);
    PointLast(w);
  }

  lemma PointLast(w: nat)
    ensures Widths(PLAIN, [Number(w)] + ([Point] + ([] + []))) == (w, -1)
  {
    var g := PLAIN.(width := w);
    EventFirst(Number(w), [Point] + ([] + []), PLAIN, g);
    EventFirst(Point, [] + [], g, g);
  }

  /** A width from an argument; a negative one stays as it is. */
  lemma ReadStar(fs: seq<Mod>, args: seq<Arg>)
    requires OnlyFlags(fs) && args != [] && args[0].Word?
    ensures var ms := fs + ([Star] + []);
            Readable(ms) && Supplied(ms, args) && Read(ms, args) == (AsInt(args[0].bits), -1)
  {
    hide AsInt, Readable, Supplied, Events, Widths, OnlyFlags;
    NoMods(args[1..]);
    ModFirst(Star, [], args, args[1..]);
    FlagsFirst(fs, [Star] + [], args);
    WidthAlone(Number(AsInt(args[0].bits)));
  }

  /** Width and precision both from arguments: after a negative width the point makes it 0. */
  lemma ReadStars(fs: seq<Mod>, args: seq<Arg>)
    requires OnlyFlags(fs) && 2 <= |args| && args[0].Word? && args[1].Word?
    ensures var ms := fs + ([Star] + ([Dot] + ([Star] + [])));
            var w, p := AsInt(args[0].bits), AsInt(args[1].bits);
            Readable(ms) && Supplied(ms, args) && Read(ms, args) == (if w < 0 then 0 else w, p)
  {
    hide AsInt, Readable, Supplied, Events, Widths, OnlyFlags;
    NoMods(args[1..][1..]);
    ModFirst(Star, [], args[1..], args[1..][1..]);
    ModFirst(Dot, [Star] + [], args[1..], args[1..]);
    ModFirst(Star, [Dot] + ([Star] + []), args, args[1..]);
    FlagsFirst(fs, [Star] + ([Dot] + ([Star] + [])), args);
    WidthPointPrecision(AsInt(args[0].bits), AsInt(args[1].bits));
  }

  /** A format that consists of one directive. */
  ghost function Single(ms: seq<Mod>, c: char): (fmt: string)
    requires AllOk(ms)
  {
    "%" + Spelled(ms) + [c] + "\0"
  }

  ghost predicate NoNul(s: string) { '\0' !in s }

  lemma {:induction false} DigitsNoNul(ds: seq<nat>)
    requires Below(ds, 10)
    ensures NoNul(DigitText(ds))
  {
    if ds != [] {
      DigitsNoNul(ds[1..]);
    }
  }

  lemma {:induction false} SpelledNoNul(ms: seq<Mod>)
    requires AllOk(ms)
    ensures NoNul(Spelled(ms))
  {
    if ms != [] {
      SpelledNoNul(ms[1..]);
      if ms[0].Num? {
        DigitsNoNul(ms[0].ds);
      }
    }
  }

  lemma SingleWritten(ms: seq<Mod>, c: char)
    requires Readable(ms) && !IsModifier(c) && c != '\0'
    ensures var fmt, n := Single(ms, c), |Spelled(ms)|;
            && |fmt| == n + 3 && fmt[0] == '%' && fmt[n + 1] == c && fmt[n + 2] == '\0'
            && Written(fmt, 1, ms)
  {
    SpelledNoNul(ms);
    hide Spelled, Readable, AllOk, IsModifier;
    var fmt, n := Single(ms, c), |Spelled(ms)|;
    var s := Spelled(ms);
    assert fmt == "%" + s + [c] + "\0";
    assert forall j | 0 <= j < n :: fmt[1 + j] == s[j];
    assert fmt[1..1 + n] == s;
    forall i | 0 <= i < |fmt|
      ensures fmt[i] == '\0' <==> i == |fmt| - 1
    {
      if 1 <= i < n + 1 {
        assert fmt[i] == s[i - 1] && s[i - 1] in s;
      }
    }
  }

  /** One directive renders what its conversion makes of the modifiers and the arguments after those of the stars. */
  lemma SingleRendered(ms: seq<Mod>, c: char, args: seq<Arg>)
    requires Readable(ms) && Supplied(ms, args) && IsConversion(c)
    ensures Terminated(Single(ms, c), '\0') && |Single(ms, c)| == |Spelled(ms)| + 3
    ensures var fmt := Single(ms, c);
            var d := Modifiers(fmt, 1, PLAIN, args);
            && ReadAs(d, 1, ms, PLAIN, args)
            && Render(fmt, 0, args) == Convert(c, d.flags, d.rest)
  {
    var fmt := Single(ms, c);
    SingleWritten(ms, c);
    ModifiersRead(fmt, 1, ms, PLAIN, args);
    hide Modifiers, Convert, Spelled, Readable, AllOk, Events, Supplied, Widths, PadOf, Ells;
    var d := Modifiers(fmt, 1, PLAIN, args);
    KnownDirective(fmt, 1, args);
    var r := Convert(c, d.flags, d.rest);
    if r.Rendered? {
      TextEnds(fmt, |fmt| - 1, r.rest, r.out);
    }
  }

  function Max(a: int, b: int): int { if a < b then b else a }

  /** `digits` in at least `w` columns, with `pad` before it. */
  ghost predicate IsPadded(out: seq<int>, digits: seq<int>, w: int, pad: char) {
    && |out| == Max(w, |digits|) && out[|out| - |digits|..] == digits
    && forall j | 0 <= j < |out| - |digits| :: out[j] == pad as int
  }

  lemma PaddedIs(n: nat, base: nat, w: int, pad: char)
    requires 2 <= base <= 16
    ensures Below(Numeral(n, base), 16)
    ensures IsPadded(PaddedNumber(n, base, w, pad), DigitCodes(Numeral(n, base)), w, pad)
    ensures |DigitCodes(Numeral(n, base))| == |Numeral(n, base)|
  {
    NumeralBelow(n, base);
    CodesLength(Numeral(n, base));
    hide DigitCodes, Numeral;
    var out, ds := PaddedNumber(n, base, w, pad), DigitCodes(Numeral(n, base));
    assert out[|out| - |ds|..] == ds;
  }

  lemma {:induction false} CodesLength(ds: seq<nat>)
    requires Below(ds, 16)
    ensures |DigitCodes(ds)| == |ds|
  {
    hide DigitCode;
    if ds != [] {
      CodesLength(ds[1..]);
    }
  }

  /** The digits are 0 to 9, and small letters from ten on. */
  lemma {:induction false} DigitsShown(ds: seq<nat>, i: nat)
    requires Below(ds, 16) && i < |ds|
    ensures |DigitCodes(ds)| == |ds| && 0 <= ds[i] < 16
    ensures DigitCodes(ds)[i] == if ds[i] < 10 then 0x30 + ds[i] else 0x61 + ds[i] - 10
  {
    hide DigitCode;
    CodesLength(ds);
    if i == 0 {
      CodeIs(ds[0]);
    } else {
      DigitsShown(ds[1..], i - 1);
    }
  }

  lemma CodeIs(d: nat)
    requires d < 16
    ensures DigitCode(d) == if d < 10 then 0x30 + d else 0x61 + d - 10
  {
  }

  /** The slot of an integer argument: 64 bits from two 'l' on. */
  predicate HasSize(a: Arg, ells: nat) { if ells < 2 then a.Word? else a.Quad? }

  function Bits(a: Arg): nat
    requires a.Word? || a.Quad?
  {
    match a
    case Word(bits) => bits
    case Quad(wide) => wide
  }

  /** The number in a slot, in two's complement. */
  function TwosComplement(a: Arg): int
    requires a.Word? || a.Quad?
  {
    match a
    case Word(bits) => if bits < 0x8000_0000 then bits else bits - 0x1_0000_0000
    case Quad(wide) => if wide < 0x8000_0000_0000_0000 then wide else wide - 0x1_0000_0000_0000_0000
  }

  lemma SignedIs(a: Arg)
    requires a.Word? || a.Quad?
    ensures SignedValue(a) == TwosComplement(a) && Unsigned(a) == Bits(a)
  {
  }

  lemma ConvertUnsigned(c: char, f: Flags, args: seq<Arg>)
    requires (c == 'u' || c == 'o' || c == 'x') && args != [] && HasSize(args[0], f.lflag)
    requires var base := if c == 'u' then 10 else if c == 'o' then 8 else 16;
             INT_MIN <= f.width - |Numeral(Bits(args[0]), base)|
    ensures var base := if c == 'u' then 10 else if c == 'o' then 8 else 16;
            Convert(c, f, args) == Rendered(PaddedNumber(Bits(args[0]), base, f.width, f.padc), args[1..])
  {
    hide Numeral, PaddedNumber, Bits, Signed, Unsigned, SignedValue;
    SignedIs(args[0]);
  }

  lemma ConvertSigned(f: Flags, args: seq<Arg>)
    requires args != [] && HasSize(args[0], f.lflag)
    requires var v := TwosComplement(args[0]);
             INT_MIN <= f.width - |Numeral(if v < 0 then -v else v, 10)|
    ensures var v := TwosComplement(args[0]);
            var ds := PaddedNumber(if v < 0 then -v else v, 10, f.width, f.padc);
            Convert('d', f, args) == Rendered(if v < 0 then ['-' as int] + ds else ds, args[1..])
  {
    hide Numeral, PaddedNumber, TwosComplement, Signed, Unsigned, SignedValue;
    SignedIs(args[0]);
  }

  /**
   * An unsigned number comes out in base 10, 8 or 16, in as many columns as the width says or more, the digits at the
   * end and the padding character before them.
   */
  lemma UnsignedShown(ms: seq<Mod>, c: char, args: seq<Arg>) returns (out: seq<int>)
    requires Readable(ms) && Supplied(ms, args) && (c == 'u' || c == 'o' || c == 'x')
    requires Stars(ms) < |args| && HasSize(args[Stars(ms)], Ells(ms))
    requires var base := if c == 'u' then 10 else if c == 'o' then 8 else 16;
             INT_MIN <= Read(ms, args).0 - |Numeral(Bits(args[Stars(ms)]), base)|
    ensures var base := if c == 'u' then 10 else if c == 'o' then 8 else 16;
            var ds := Numeral(Bits(args[Stars(ms)]), base);
            && Below(ds, 16) && IsPadded(out, DigitCodes(ds), Read(ms, args).0, PadOf(ms, ' '))
            && Terminated(Single(ms, c), '\0')
            && Render(Single(ms, c), 0, args) == Rendered(out, args[Stars(ms) + 1..])
  {
    hide Modifiers, Render, Convert, Numeral, DigitCodes, PaddedNumber, Widths, Readable, AllOk, Supplied, PadOf,
      IsPadded, Bits, Spelled;
    var a := args[Stars(ms)];
    var base := if c == 'u' then 10 else if c == 'o' then 8 else 16;
    SingleRendered(ms, c, args);
    var d := Modifiers(Single(ms, c), 1, PLAIN, args);
    ConvertUnsigned(c, d.flags, d.rest);
    PaddedIs(Bits(a), base, Read(ms, args).0, PadOf(ms, ' '));
    out := PaddedNumber(Bits(a), base, Read(ms, args).0, PadOf(ms, ' '));
    assert args[Stars(ms)..][1..] == args[Stars(ms) + 1..];
  }

  /** A signed number: the same for its magnitude in base 10, after a minus where there is one. */
  lemma SignedShown(ms: seq<Mod>, args: seq<Arg>) returns (out: seq<int>)
    requires Readable(ms) && Supplied(ms, args)
    requires Stars(ms) < |args| && HasSize(args[Stars(ms)], Ells(ms))
    requires var v := TwosComplement(args[Stars(ms)]);
             INT_MIN <= Read(ms, args).0 - |Numeral(if v < 0 then -v else v, 10)|
    ensures var v := TwosComplement(args[Stars(ms)]);
            var ds := Numeral(if v < 0 then -v else v, 10);
            && Below(ds, 16)
            && (0 <= v ==> IsPadded(out, DigitCodes(ds), Read(ms, args).0, PadOf(ms, ' ')))
            && (v < 0 ==> out != [] && out[0] == '-' as int
                          && IsPadded(out[1..], DigitCodes(ds), Read(ms, args).0, PadOf(ms, ' ')))
            && Terminated(Single(ms, 'd'), '\0')
            && Render(Single(ms, 'd'), 0, args) == Rendered(out, args[Stars(ms) + 1..])
  {
    hide Modifiers, Render, Convert, Numeral, DigitCodes, PaddedNumber, Widths, Readable, AllOk, Supplied, PadOf,
      IsPadded, TwosComplement, Spelled;
    var a := args[Stars(ms)];
    var v := TwosComplement(a);
    var n := if v < 0 then -v else v;
    SingleRendered(ms, 'd', args);
    var d := Modifiers(Single(ms, 'd'), 1, PLAIN, args);
    ConvertSigned(d.flags, d.rest);
    PaddedIs(n, 10, Read(ms, args).0, PadOf(ms, ' '));
    var ds := PaddedNumber(n, 10, Read(ms, args).0, PadOf(ms, ' '));
    out := if v < 0 then ['-' as int] + ds else ds;
    assert (['-' as int] + ds)[1..] == ds;
    assert args[Stars(ms)..][1..] == args[Stars(ms) + 1..];
  }

  /** What is shown of a string: cut off at the precision, and in the alternate form without what cannot be printed. */
  ghost predicate IsCut(shown: seq<int>, s: seq<int>, precision: int, alt: bool) {
    && |shown| == (if 0 <= precision < |s| then precision else |s|)
    && forall i | 0 <= i < |shown| ::
         shown[i] == if alt && !(0x20 <= s[i] <= 0x7e) then 0x3f else s[i]
  }

  /** A string in at least `w` columns: to the left with spaces after it, or to the right with padding before it. */
  ghost predicate IsAligned(out: seq<int>, shown: seq<int>, w: int, pad: char) {
    && |out| == Max(w, |shown|)
    && (pad == '-' ==> out[..|shown|] == shown && forall j | |shown| <= j < |out| :: out[j] == 0x20)
    && (pad != '-' ==> IsPadded(out, shown, w, pad))
  }

  lemma {:induction false} MaskedIs(s: seq<int>, alt: bool)
    ensures |Masked(s, alt)| == |s|
    ensures forall i | 0 <= i < |s| :: Masked(s, alt)[i] == if alt && !(0x20 <= s[i] <= 0x7e) then 0x3f else s[i]
  {
    if s != [] {
      MaskedIs(s[1..], alt);
    }
  }

  lemma CutIs(s: seq<int>, f: Flags)
    ensures IsCut(Masked(Shown(s, f.precision), f.alt), s, f.precision, f.alt)
  {
    MaskedIs(Shown(s, f.precision), f.alt);
  }

  lemma AlignedIs(s: seq<int>, f: Flags)
    ensures IsAligned(PaddedText(s, f), Masked(Shown(s, f.precision), f.alt), f.width, f.padc)
  {
    MaskedIs(Shown(s, f.precision), f.alt);
    hide Masked, Shown;
    var out, t := PaddedText(s, f), Masked(Shown(s, f.precision), f.alt);
    assert f.padc == '-' ==> out[..|t|] == t;
    assert f.padc != '-' ==> out[|out| - |t|..] == t;
  }

  /** How many characters of `s` are shown. */
  function CutLength(s: seq<int>, precision: int): nat {
    if 0 <= precision < |s| then precision else |s|
  }

  /** The string that an argument stands for. */
  ghost predicate IsString(a: Arg, s: seq<int>) {
    a == Text(s) || (a == NullText && s == [0x28, 0x6e, 0x75, 0x6c, 0x6c, 0x29])
  }

  lemma ConvertString(f: Flags, args: seq<Arg>, s: seq<int>)
    requires args != [] && IsString(args[0], s) && TextCounts(f, |Shown(s, f.precision)|)
    ensures Convert('s', f, args) == Rendered(PaddedText(s, f), args[1..])
  {
    hide PaddedText, Shown, TextCounts;
    NullCodes();
  }

  lemma NullCodes()
    ensures Codes("(null)") == [0x28, 0x6e, 0x75, 0x6c, 0x6c, 0x29]
  {
    assert "(null)"[1..] == "null)" && "null)"[1..] == "ull)" && "ull)"[1..] == "ll)" && "ll)"[1..] == "l)";
    assert "l)"[1..] == ")" && ")"[1..] == "";
  }

  /**
   * A string, "(null)" for none, is cut off at the precision and comes out in as many columns as the width
   * says, or more.  The width, which is counted down by what is shown, must stay an `int`.
   */
  lemma TextShown(ms: seq<Mod>, args: seq<Arg>, s: seq<int>) returns (out: seq<int>, shown: seq<int>)
    requires Readable(ms) && Supplied(ms, args) && Stars(ms) < |args| && IsString(args[Stars(ms)], s)
    requires var (w, p) := Read(ms, args);
             var n := CutLength(s, p);
             INT_MIN <= (if w <= 0 || PadOf(ms, ' ') == '-' then w else if w < n then w - n else 0) - n
    ensures var (w, p) := Read(ms, args);
            && IsCut(shown, s, p, Flag('#') in ms)
            && IsAligned(out, shown, w, PadOf(ms, ' '))
            && Terminated(Single(ms, 's'), '\0')
            && Render(Single(ms, 's'), 0, args) == Rendered(out, args[Stars(ms) + 1..])
  {
    hide Modifiers, Render, Convert, Widths, Readable, AllOk, Supplied, PadOf, IsCut, IsAligned, PaddedText, Masked,
      Spelled;
    SingleRendered(ms, 's', args);
    var d := Modifiers(Single(ms, 's'), 1, PLAIN, args);
    CutIs(s, d.flags);
    AlignedIs(s, d.flags);
    ConvertString(d.flags, d.rest, s);
    out, shown := PaddedText(s, d.flags), Masked(Shown(s, d.flags.precision), d.flags.alt);
    assert args[Stars(ms)..][1..] == args[Stars(ms) + 1..];
  }

  /** A pointer: "0x", and its bits in base 16 in as many columns as the width says or more. */
  lemma PointerShown(ms: seq<Mod>, args: seq<Arg>) returns (out: seq<int>)
    requires Readable(ms) && Supplied(ms, args) && Stars(ms) < |args| && args[Stars(ms)].Word?
    requires INT_MIN <= Read(ms, args).0 - |Numeral(args[Stars(ms)].bits, 16)|
    ensures var ds := Numeral(args[Stars(ms)].bits, 16);
            && Below(ds, 16) && 2 <= |out| && out[0] == '0' as int && out[1] == 'x' as int
            && IsPadded(out[2..], DigitCodes(ds), Read(ms, args).0, PadOf(ms, ' '))
            && Terminated(Single(ms, 'p'), '\0')
            && Render(Single(ms, 'p'), 0, args) == Rendered(out, args[Stars(ms) + 1..])
  {
    hide Modifiers, Render, Convert, Numeral, DigitCodes, PaddedNumber, Widths, Readable, AllOk, Supplied, PadOf,
      IsPadded, Spelled;
    var bits := args[Stars(ms)].bits;
    SingleRendered(ms, 'p', args);
    var d := Modifiers(Single(ms, 'p'), 1, PLAIN, args);
    ConvertPointer(d.flags, d.rest);
    PaddedIs(bits, 16, Read(ms, args).0, PadOf(ms, ' '));
    var ds := PaddedNumber(bits, 16, Read(ms, args).0, PadOf(ms, ' '));
    out := ['0' as int, 'x' as int] + ds;
    assert out[2..] == ds;
    assert args[Stars(ms)..][1..] == args[Stars(ms) + 1..];
  }

  lemma ConvertPointer(f: Flags, args: seq<Arg>)
    requires args != [] && args[0].Word? && INT_MIN <= f.width - |Numeral(args[0].bits, 16)|
    ensures Convert('p', f, args) ==
            Rendered(['0' as int, 'x' as int] + PaddedNumber(args[0].bits, 16, f.width, f.padc), args[1..])
  {
    hide Numeral, PaddedNumber, Signed;
  }

  lemma {:induction false} CodesAre(s: string)
    ensures |Codes(s)| == |s| && forall i | 0 <= i < |s| :: Codes(s)[i] == s[i] as int
  {
    if s != "" {
      CodesAre(s[1..]);
    }
  }

  /** Text before a directive, or before the end, comes out character by character. */
  lemma PlainShown(fmt: string, i: nat, j: nat, args: seq<Arg>) returns (out: seq<int>)
    requires Terminated(fmt, '\0') && i <= j < |fmt|
    requires forall k | i <= k < j :: fmt[k] != '%'
    ensures |out| == j - i && (forall k | 0 <= k < |out| :: out[k] == fmt[i + k] as int)
    ensures var rest := Render(fmt, j, args);
            Render(fmt, i, args) == if rest.Mismatch? then Mismatch else Rendered(out + rest.out, rest.rest)
  {
    hide Render, Codes, Terminated;
    LiteralText(fmt, i, j, args);
    CodesAre(fmt[i..j]);
    out := Codes(fmt[i..j]);
  }

  /** A character is passed on as it is, and a percent sign stands for itself, whatever the modifiers. */
  lemma CharacterShown(ms: seq<Mod>, args: seq<Arg>)
    requires Readable(ms) && Supplied(ms, args)
    ensures Terminated(Single(ms, 'c'), '\0') && Terminated(Single(ms, '%'), '\0')
    ensures Stars(ms) <= |args| && Render(Single(ms, '%'), 0, args) == Rendered([0x25], args[Stars(ms)..])
    ensures Stars(ms) < |args| && args[Stars(ms)].Word? ==>
              Render(Single(ms, 'c'), 0, args) == Rendered([TwosComplement(args[Stars(ms)])], args[Stars(ms) + 1..])
  {
    hide Modifiers, Render, Widths, Readable, AllOk, Supplied, PadOf, Spelled, Signed, TwosComplement;
    SingleRendered(ms, 'c', args);
    SingleRendered(ms, '%', args);
    if Stars(ms) < |args| && args[Stars(ms)].Word? {
      SignedIs(args[Stars(ms)]);
      assert args[Stars(ms)..][1..] == args[Stars(ms) + 1..];
    }
  }

  /** The character codes of a text. */
  ghost predicate IsText(out: seq<int>, text: string) {
    |out| == |text| && forall i | 0 <= i < |out| :: out[i] == text[i] as int
  }

  /** The text for an error code, of which the sign does not matter. */
  ghost predicate IsErrorText(out: seq<int>, v: int) {
    if v == 1 || v == -1 then IsText(out, "unspecified error")
    else if v == 2 || v == -2 then IsText(out, "bad environment")
    else if v == 3 || v == -3 then IsText(out, "invalid parameter")
    else if v == 4 || v == -4 then IsText(out, "out of memory")
    else if v == 5 || v == -5 then IsText(out, "out of environments")
    else if v == 6 || v == -6 then IsText(out, "segmentation fault")
    else
      var ds := Numeral(if v < 0 then -v else v, 10);
      Below(ds, 16) && 6 <= |out| && IsText(out[..6], "error ") && out[6..] == DigitCodes(ds)
  }

  lemma ErrorTextIs(v: int)
    requires INT_MIN < v <= INT_MAX
    ensures IsErrorText(ErrorText(Magnitude(v)), v)
  {
    hide Numeral, DigitCodes, PaddedNumber, Codes, IsPadded;
    var n := Magnitude(v);
    if 0 < n < MAXERROR {
      CodesAre(ErrorString(n));
    } else {
      CodesAre("error ");
      PaddedIs(n, 10, -1, ' ');
      NumberAlone(n);
      assert Codes("error ") + PaddedNumber(n, 10, -1, ' ') == ErrorText(n);
    }
  }

  lemma NumberAlone(n: nat)
    ensures Below(Numeral(n, 10), 16) && PaddedNumber(n, 10, -1, ' ') == DigitCodes(Numeral(n, 10))
  {
    hide Numeral, DigitCodes;
    PaddedIs(n, 10, -1, ' ');
  }

  /** An error code, positive or negative, prints its text, whatever the modifiers; any other number follows "error". */
  lemma ErrorShown(ms: seq<Mod>, args: seq<Arg>) returns (out: seq<int>)
    requires Readable(ms) && Supplied(ms, args) && Stars(ms) < |args| && args[Stars(ms)].Word?
    requires INT_MIN < TwosComplement(args[Stars(ms)])
    ensures IsErrorText(out, TwosComplement(args[Stars(ms)]))
    ensures Terminated(Single(ms, 'e'), '\0')
    ensures Render(Single(ms, 'e'), 0, args) == Rendered(out, args[Stars(ms) + 1..])
  {
    hide Modifiers, Render, Widths, Readable, AllOk, Supplied, PadOf, Spelled, Signed, TwosComplement, IsErrorText,
      ErrorText, Magnitude;
    SingleRendered(ms, 'e', args);
    var a := args[Stars(ms)];
    SignedIs(a);
    WordRange(a);
    out := ErrorText(Magnitude(TwosComplement(a)));
    ErrorTextIs(TwosComplement(a));
    assert args[Stars(ms)..][1..] == args[Stars(ms) + 1..];
  }

  lemma WordRange(a: Arg)
    requires a.Word?
    ensures INT_MIN <= TwosComplement(a) <= INT_MAX
  {
  }
}
