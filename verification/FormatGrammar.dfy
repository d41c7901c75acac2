/** Directives as one writes them, and how the format interpreter reads them. */
module FormatGrammar {
  import opened CStrings
  import opened Digits
  import opened Int32
  import opened Printfmt
  import opened Slices

  /** A flag, a point, a star, or a number that starts with no zero. */
  datatype Mod = Flag(c: char) | Dot | Star | Num(ds: seq<nat>)

  ghost predicate ModOk(m: Mod) {
    match m
    case Flag(c) => c == '-' || c == '0' || c == '#' || c == 'l'
    case Num(ds) => ds != [] && Below(ds, 10) && ds[0] != 0
    case _ => true
  }

  ghost predicate AllOk(ms: seq<Mod>) {
    ms != [] ==> ModOk(ms[0]) && AllOk(ms[1..])
  }

  /** After a number comes neither another nor a zero, which would be part of it. */
  ghost predicate Readable(ms: seq<Mod>)
    ensures Readable(ms) ==> AllOk(ms)
  {
    ms != [] ==>
      && ModOk(ms[0]) && Readable(ms[1..])
      && (ms[0].Num? && 1 < |ms| ==> !ms[1].Num? && ms[1] != Flag('0'))
  }

  function DigitText(ds: seq<nat>): (s: string)
    requires Below(ds, 10)
    ensures |s| == |ds|
  {
    if ds == [] then "" else ["0123456789"[ds[0]]] + DigitText(ds[1..])
  }

  ghost function SpelledOne(m: Mod): (s: string)
    requires ModOk(m)
    ensures s != ""
  {
    match m
    case Flag(c) => [c]
    case Dot => "."
    case Star => "*"
    case Num(ds) => DigitText(ds)
  }

  ghost function Spelled(ms: seq<Mod>): string
    requires AllOk(ms)
  {
    if ms == [] then "" else SpelledOne(ms[0]) + Spelled(ms[1..])
  }

  /** A point, or a number, for width and precision. */
  datatype Event = Point | Number(v: int)

  /** There is an argument of the right kind for every star. */
  predicate Supplied(ms: seq<Mod>, args: seq<Arg>) {
    if ms == [] then true
    else if ms[0].Star? then args != [] && args[0].Word? && Supplied(ms[1..], args[1..])
    else Supplied(ms[1..], args)
  }

  function Stars(ms: seq<Mod>): nat {
    if ms == [] then 0 else (if ms[0].Star? then 1 else 0) + Stars(ms[1..])
  }

  /** An argument slot as a signed number: from the upper half of its range on it is negative. */
  function AsInt(bits: uint32): int {
    if bits < 0x8000_0000 then bits else bits - 0x1_0000_0000
  }

  function Events(ms: seq<Mod>, args: seq<Arg>): seq<Event>
    requires Supplied(ms, args)
  {
    if ms == [] then []
    else
      match ms[0]
      case Flag(_) => Events(ms[1..], args)
      case Dot => [Point] + Events(ms[1..], args)
      case Star => [Number(AsInt(args[0].bits))] + Events(ms[1..], args[1..])
      case Num(ds) => [Number(Wrapped(Value(0, ds, 10)))] + Events(ms[1..], args)
  }

  predicate Decides(e: Event) { e.Point? || 0 <= e.v }

  /** The first point or number that is not negative. */
  function Deciding(es: seq<Event>): (d: nat)
    ensures d <= |es| && (d < |es| ==> Decides(es[d])) && forall i | 0 <= i < d :: !Decides(es[i])
  {
    if es == [] || Decides(es[0]) then 0 else 1 + Deciding(es[1..])
  }

  /** The last number, or else `p`. */
  function LastNumber(es: seq<Event>, p: int): int {
    if es == [] then p else LastNumber(es[1..], if es[0].Number? then es[0].v else p)
  }

  /** The width is what decides, a point counting as 0; without any of that, the last negative number, or else `w`. */
  function WidthOf(es: seq<Event>, w: int): int {
    var d := Deciding(es);
    if d < |es| then (if es[d].Point? then 0 else es[d].v) else LastNumber(es, w)
  }

  /** The precision is the last number after what decides the width, or -1. */
  function PrecisionOf(es: seq<Event>): int {
    var d := Deciding(es);
    if d < |es| then LastNumber(es[d + 1..], -1) else -1
  }

  /** The same for a directive of which the beginning has been read. */
  function Widths(f: Flags, es: seq<Event>): (int, int) {
    if f.width < 0 then (WidthOf(es, f.width), PrecisionOf(es)) else (f.width, LastNumber(es, f.precision))
  }

  /** The last padding flag, or else `padc`. */
  function PadOf(ms: seq<Mod>, padc: char): char {
    if ms == [] then padc
    else PadOf(ms[1..], if ms[0] == Flag('-') then '-' else if ms[0] == Flag('0') then '0' else padc)
  }

  function Ells(ms: seq<Mod>): nat {
    if ms == [] then 0 else (if ms[0] == Flag('l') then 1 else 0) + Ells(ms[1..])
  }

  /** `fmt` has the text of `ms` at `i`, and a conversion character after it. */
  ghost predicate Written(fmt: string, i: nat, ms: seq<Mod>) {
    && Terminated(fmt, '\0') && Readable(ms)
    && var n := |Spelled(ms)|; i + n < |fmt| && fmt[i..i + n] == Spelled(ms) && !IsModifier(fmt[i + n])
  }

  /** What directives with these modifiers come to, from the flags `f` on. */
  ghost predicate ReadAs(d: Directive, i: nat, ms: seq<Mod>, f: Flags, args: seq<Arg>)
    requires AllOk(ms) && Supplied(ms, args)
  {
    var es := Events(ms, args);
    && d.Directive? && d.at == i + |Spelled(ms)|
    && Stars(ms) <= |args| && d.rest == args[Stars(ms)..]
    && (d.flags.width, d.flags.precision) == Widths(f, es)
    && d.flags.padc == PadOf(ms, f.padc)
    && d.flags.lflag == f.lflag + Ells(ms)
    && d.flags.alt == (f.alt || Flag('#') in ms)
  }

  lemma ReadNothing(i: nat, f: Flags, args: seq<Arg>)
    requires f.width < 0 ==> f.precision == -1
    ensures ReadAs(Directive(i, f, args), i, [], f, args)
  {
  }

  lemma DigitIs(d: nat)
    requires d < 10
    ensures var c := "0123456789"[d]; IsDigit(c) && DigitOf(c) == d && (c == '0' <==> d == 0)
  {
  }

  /** A run of digits is read as the number it stands for, up to its end. */
  lemma {:induction false} NumberRead(fmt: string, i: nat, ds: seq<nat>, v: nat)
    requires Terminated(fmt, '\0') && Below(ds, 10) && i + |ds| < |fmt|
    requires fmt[i..i + |ds|] == DigitText(ds) && !IsDigit(fmt[i + |ds|])
    ensures NumberAt(fmt, i, Wrapped(v)) == Wrapped(Value(v, ds, 10)) && DigitsEnd(fmt, i) == i + |ds|
    decreases |ds|
  {
    if ds != [] {
      hide Wrapped, IsDigit, DigitOf;
      DigitIs(ds[0]);
      assert fmt[i] == fmt[i..i + |ds|][0] == "0123456789"[ds[0]];
      assert fmt[i + 1..i + 1 + |ds[1..]|] == fmt[i..i + |ds|][1..] == DigitText(ds[1..]);
      WrappedDigit(v, 10, ds[0]);
      NumberRead(fmt, i + 1, ds[1..], v * 10 + ds[0]);
    }
  }

  lemma WrittenTail(fmt: string, i: nat, ms: seq<Mod>)
    requires Written(fmt, i, ms) && ms != []
    ensures var m := SpelledOne(ms[0]);
            && i + |m| < |fmt| && fmt[i..i + |m|] == m && fmt[i] == m[0]
            && |Spelled(ms)| == |m| + |Spelled(ms[1..])|
            && Written(fmt, i + |m|, ms[1..])
  {
    hide SpelledOne, ModOk, Spelled, Terminated, IsModifier;
    SpelledMore(ms);
    SliceParts(fmt, i, SpelledOne(ms[0]), Spelled(ms[1..]));
    assert fmt[i] == fmt[i..i + |SpelledOne(ms[0])|][0];
  }

  lemma SpelledMore(ms: seq<Mod>)
    requires Readable(ms) && ms != []
    ensures Readable(ms[1..]) && Spelled(ms) == SpelledOne(ms[0]) + Spelled(ms[1..])
  {
  }

  /** The character after a number is no digit. */
  lemma NumberEnds(fmt: string, i: nat, ms: seq<Mod>)
    requires Written(fmt, i, ms) && ms != [] && ms[0].Num?
    ensures i + |ms[0].ds| < |fmt| && !IsDigit(fmt[i + |ms[0].ds|]) && fmt[i..i + |ms[0].ds|] == DigitText(ms[0].ds)
  {
    WrittenTail(fmt, i, ms);
    if 1 < |ms| {
      assert ms[1..][0] == ms[1];
      WrittenTail(fmt, i + |ms[0].ds|, ms[1..]);
    }
  }

  lemma EventFirst(e: Event, es: seq<Event>, f: Flags, g: Flags)
    requires f.width < 0 ==> f.precision == -1
    requires if f.width < 0 then g.width == (if e.Point? then 0 else e.v) && g.precision == -1
             else g.width == f.width && g.precision == if e.Point? then f.precision else e.v
    ensures Widths(f, [e] + es) == Widths(g, es)
  {
    var all := [e] + es;
    assert all[1..] == es;
    if f.width < 0 && !Decides(e) && Deciding(es) < |es| {
      assert all[Deciding(all) + 1..] == es[Deciding(es) + 1..];
    }
  }

  /** The event that a modifier is, if it is one. */
  function EventOf(m: Mod, args: seq<Arg>): (e: seq<Event>)
    requires m.Star? ==> args != [] && args[0].Word?
    ensures |e| <= 1
  {
    match m
    case Flag(_) => []
    case Dot => [Point]
    case Star => [Number(AsInt(args[0].bits))]
    case Num(ds) => [Number(Wrapped(Value(0, ds, 10)))]
  }

  /** What one modifier does to what has been read so far. */
  ghost predicate StepTo(m: Mod, f: Flags, args: seq<Arg>, g: Flags, more: seq<Arg>)
    requires m.Star? ==> args != [] && args[0].Word?
  {
    && more == (if m.Star? then args[1..] else args)
    && g.padc == (if m == Flag('-') then '-' else if m == Flag('0') then '0' else f.padc)
    && g.lflag == f.lflag + (if m == Flag('l') then 1 else 0)
    && g.alt == (f.alt || m == Flag('#'))
    && var e := EventOf(m, args);
       if e == [] then g.width == f.width && g.precision == f.precision
       else if f.width < 0 then g.width == (if e[0].Point? then 0 else e[0].v) && g.precision == -1
       else g.width == f.width && g.precision == if e[0].Point? then f.precision else e[0].v
  }

  lemma FlagSwitch(fmt: string, i: nat, c: char, f: Flags, args: seq<Arg>) returns (g: Flags)
    requires Terminated(fmt, '\0') && i < |fmt| && fmt[i] == c && ModOk(Flag(c))
    ensures i + 1 < |fmt| && StepTo(Flag(c), f, args, g, args)
    ensures Modifiers(fmt, i, f, args) == Modifiers(fmt, i + 1, g, args)
  {
    g := if c == '#' then f.(alt := true) else if c == 'l' then f.(lflag := f.lflag + 1) else f.(padc := c);
  }

  lemma DotSwitch(fmt: string, i: nat, f: Flags, args: seq<Arg>) returns (g: Flags)
    requires Terminated(fmt, '\0') && i < |fmt| && fmt[i] == '.' && (f.width < 0 ==> f.precision == -1)
    ensures i + 1 < |fmt| && StepTo(Dot, f, args, g, args)
    ensures Modifiers(fmt, i, f, args) == Modifiers(fmt, i + 1, g, args)
  {
    g := if f.width < 0 then f.(width := 0) else f;
  }

  lemma StarSwitch(fmt: string, i: nat, f: Flags, args: seq<Arg>) returns (g: Flags)
    requires Terminated(fmt, '\0') && i < |fmt| && fmt[i] == '*' && args != [] && args[0].Word?
    ensures i + 1 < |fmt| && StepTo(Star, f, args, g, args[1..])
    ensures Modifiers(fmt, i, f, args) == Modifiers(fmt, i + 1, g, args[1..])
  {
    g := WithNumber(f, AsInt(args[0].bits));
  }

  lemma NumberSwitch(fmt: string, i: nat, ds: seq<nat>, f: Flags, args: seq<Arg>) returns (g: Flags)
    requires Terminated(fmt, '\0') && ModOk(Num(ds)) && i + |ds| < |fmt|
    requires fmt[i..i + |ds|] == DigitText(ds) && !IsDigit(fmt[i + |ds|])
    ensures StepTo(Num(ds), f, args, g, args)
    ensures Modifiers(fmt, i, f, args) == Modifiers(fmt, i + |ds|, g, args)
  {
    hide NumberAt, DigitsEnd, Wrapped, Value, DigitText;
    NumberIs(fmt, i, ds);
    DigitIs(ds[0]);
    g := WithNumber(f, Wrapped(Value(0, ds, 10)));
  }

  lemma WrittenHead(fmt: string, i: nat, ms: seq<Mod>, args: seq<Arg>)
    requires Written(fmt, i, ms) && ms != [] && Supplied(ms, args)
    ensures Terminated(fmt, '\0') && ModOk(ms[0]) && (ms[0].Star? ==> args != [] && args[0].Word?)
  {
  }

  /** The interpreter's switch on one modifier. */
  lemma ModifierStep(fmt: string, i: nat, ms: seq<Mod>, f: Flags, args: seq<Arg>) returns (g: Flags, more: seq<Arg>)
    requires Written(fmt, i, ms) && ms != [] && Supplied(ms, args) && (f.width < 0 ==> f.precision == -1)
    ensures StepTo(ms[0], f, args, g, more)
    ensures var j := i + |SpelledOne(ms[0])|;
            j < |fmt| && Modifiers(fmt, i, f, args) == Modifiers(fmt, j, g, more)
  {
    hide Modifiers, StepTo, DigitText, Written, Readable, AllOk, Terminated, Supplied, Spelled, ModOk, IsModifier,
      IsDigit;
    WrittenHead(fmt, i, ms, args);
    WrittenTail(fmt, i, ms);
    more := args;
    match ms[0] {
      case Flag(c) => g := FlagSwitch(fmt, i, c, f, args);
      case Dot => g := DotSwitch(fmt, i, f, args);
      case Star =>
        g := StarSwitch(fmt, i, f, args);
        more := args[1..];
      case Num(ds) =>
        NumberEnds(fmt, i, ms);
        g := NumberSwitch(fmt, i, ds, f, args);
    }
  }

  lemma NumberIs(fmt: string, i: nat, ds: seq<nat>)
    requires Terminated(fmt, '\0') && Below(ds, 10) && ds != [] && i + |ds| < |fmt|
    requires fmt[i..i + |ds|] == DigitText(ds) && !IsDigit(fmt[i + |ds|])
    ensures fmt[i] == "0123456789"[ds[0]] && IsDigit(fmt[i])
    ensures NumberAt(fmt, i, 0) == Wrapped(Value(0, ds, 10)) && DigitsEnd(fmt, i + 1) == i + |ds|
  {
    assert fmt[i] == fmt[i..i + |ds|][0];
    DigitIs(ds[0]);
    NumberRead(fmt, i, ds, 0);
  }

  lemma StepRead(d: Directive, i: nat, ms: seq<Mod>, f: Flags, args: seq<Arg>, g: Flags, more: seq<Arg>)
    requires ms != [] && AllOk(ms) && Supplied(ms, args) && (f.width < 0 ==> f.precision == -1)
    requires StepTo(ms[0], f, args, g, more) && ReadAs(d, i + |SpelledOne(ms[0])|, ms[1..], g, more)
    ensures ReadAs(d, i, ms, f, args)
  {
    hide ModOk, SpelledOne, Widths, Wrapped, AsInt;
    var es := Events(ms[1..], more);
    assert Events(ms, args) == EventOf(ms[0], args) + es;
    if EventOf(ms[0], args) != [] {
      EventFirst(EventOf(ms[0], args)[0], es, f, g);
    } else {
      SameWidths(f, g, es);
      assert [] + es == es;
    }
    if ms[0].Star? {
      assert args[1..][Stars(ms[1..])..] == args[Stars(ms)..];
    }
    assert Flag('#') in ms <==> ms[0] == Flag('#') || Flag('#') in ms[1..];
  }

  lemma WrittenTerminated(fmt: string, i: nat, ms: seq<Mod>)
    requires Written(fmt, i, ms)
    ensures Terminated(fmt, '\0') && i < |fmt| && AllOk(ms)
  {
    hide Spelled, Terminated, IsModifier;
  }

  lemma ModifiersEnd(fmt: string, i: nat, f: Flags, args: seq<Arg>)
    requires Written(fmt, i, [])
    ensures i < |fmt| && Modifiers(fmt, i, f, args) == Directive(i, f, args)
  {
  }

  lemma StepSupplied(fmt: string, i: nat, ms: seq<Mod>, f: Flags, args: seq<Arg>, g: Flags, more: seq<Arg>)
    requires Written(fmt, i, ms) && ms != [] && Supplied(ms, args) && (f.width < 0 ==> f.precision == -1)
    requires StepTo(ms[0], f, args, g, more)
    ensures AllOk(ms) && Terminated(fmt, '\0') && Supplied(ms[1..], more) && (g.width < 0 ==> g.precision == -1)
  {
    hide Terminated, Spelled, Wrapped, AsInt;
  }

  lemma SameWidths(f: Flags, g: Flags, es: seq<Event>)
    requires f.width == g.width && f.precision == g.precision
    ensures Widths(f, es) == Widths(g, es)
  {
  }

  /**
   * The interpreter reads modifiers as they are meant: the width is the first number or point that is not negative, the
   * precision the last number after that; padding, length, alternate form and arguments as in `ReadAs`.
   */
  lemma {:induction false} ModifiersRead(fmt: string, i: nat, ms: seq<Mod>, f: Flags, args: seq<Arg>)
    requires Written(fmt, i, ms) && Supplied(ms, args) && (f.width < 0 ==> f.precision == -1)
    ensures ReadAs(Modifiers(fmt, i, f, args), i, ms, f, args)
    decreases |ms|
  {
    hide Modifiers, SpelledOne, Events, ReadAs, Widths, ModOk, Written, Supplied, StepTo, Readable, Terminated;
    WrittenTerminated(fmt, i, ms);
    if ms == [] {
      ModifiersEnd(fmt, i, f, args);
      ReadNothing(i, f, args);
    } else {
      var g, more := ModifierStep(fmt, i, ms, f, args);
      StepSupplied(fmt, i, ms, f, args, g, more);
      WrittenTail(fmt, i, ms);
      ModifiersRead(fmt, i + |SpelledOne(ms[0])|, ms[1..], g, more);
      StepRead(Modifiers(fmt, i, f, args), i, ms, f, args, g, more);
    }
  }

  function DigitsAt(s: string): (ds: seq<nat>)
    requires forall j | 0 <= j < |s| :: IsDigit(s[j])
    ensures |ds| == |s|
  {
    seq(|s|, j requires 0 <= j < |s| => DigitOf(s[j]))
  }

  lemma {:induction false} DigitsSpelled(s: string)
    requires forall j | 0 <= j < |s| :: IsDigit(s[j])
    ensures Below(DigitsAt(s), 10) && DigitText(DigitsAt(s)) == s
  {
    if s != "" {
      assert DigitsAt(s)[1..] == DigitsAt(s[1..]);
      DigitsSpelled(s[1..]);
      DigitBack(s[0]);
    }
  }

  lemma DigitBack(c: char)
    requires IsDigit(c)
    ensures "0123456789"[DigitOf(c)] == c
  {
  }

  lemma WrittenMore(fmt: string, i: nat, m: Mod, ms: seq<Mod>)
    requires ModOk(m) && i + |SpelledOne(m)| <= |fmt| && fmt[i..i + |SpelledOne(m)|] == SpelledOne(m)
    requires Written(fmt, i + |SpelledOne(m)|, ms)
    requires m.Num? && ms != [] ==> !ms[0].Num? && ms[0] != Flag('0')
    ensures Written(fmt, i, [m] + ms)
  {
    hide SpelledOne, ModOk, Terminated, IsModifier;
    var all, k := [m] + ms, |SpelledOne(m)|;
    assert all[1..] == ms;
    SpelledMore(all);
    SliceJoin(fmt, i, i + k, i + k + |Spelled(ms)|);
  }

  lemma FirstNotDigit(fmt: string, i: nat, ms: seq<Mod>)
    requires Written(fmt, i, ms) && !IsDigit(fmt[i])
    ensures ms != [] ==> !ms[0].Num? && ms[0] != Flag('0')
  {
    if ms != [] {
      WrittenTail(fmt, i, ms);
      if ms[0].Num? {
        DigitIs(ms[0].ds[0]);
      }
    }
  }

  lemma FirstNumber(fmt: string, i: nat) returns (ds: seq<nat>)
    requires Terminated(fmt, '\0') && i < |fmt| && IsDigit(fmt[i]) && fmt[i] != '0'
    ensures ModOk(Num(ds)) && i + |ds| < |fmt| && fmt[i..i + |ds|] == DigitText(ds) && !IsDigit(fmt[i + |ds|])
  {
    hide DigitText, DigitOf;
    var j := DigitsEnd(fmt, i + 1);
    var s := fmt[i..j];
    forall k | 0 <= k < |s|
      ensures IsDigit(s[k])
    {
      if 0 < k {
        DigitsAll(fmt, i + 1, i + k);
      }
    }
    ds := DigitsAt(s);
    DigitsSpelled(s);
    DigitBack(fmt[i]);
    DigitIs(ds[0]);
    RunStops(fmt, i + 1);
  }

  lemma FirstMod(fmt: string, i: nat) returns (m: Mod)
    requires Terminated(fmt, '\0') && i < |fmt| && IsModifier(fmt[i])
    ensures ModOk(m) && SpelledOne(m) != ""
    ensures var j := i + |SpelledOne(m)|;
            j < |fmt| && fmt[i..j] == SpelledOne(m) && (m.Num? ==> !IsDigit(fmt[j]))
  {
    hide DigitText;
    var c := fmt[i];
    if IsDigit(c) && c != '0' {
      var ds := FirstNumber(fmt, i);
      m := Num(ds);
    } else {
      m := if c == '.' then Dot else if c == '*' then Star else Flag(c);
      assert fmt[i..i + 1] == [c];
    }
  }

  lemma WrittenNone(fmt: string, i: nat)
    requires Terminated(fmt, '\0') && i < |fmt| && !IsModifier(fmt[i])
    ensures Written(fmt, i, [])
  {
    hide Terminated, IsModifier;
    assert fmt[i..i] == "";
  }

  lemma WrittenFirst(fmt: string, i: nat, m: Mod, ms: seq<Mod>)
    requires ModOk(m)
    requires var j := i + |SpelledOne(m)|;
             j < |fmt| && fmt[i..j] == SpelledOne(m) && (m.Num? ==> !IsDigit(fmt[j])) && Written(fmt, j, ms)
    ensures Written(fmt, i, [m] + ms)
  {
    hide Written, SpelledOne, ModOk, IsDigit;
    if m.Num? {
      FirstNotDigit(fmt, i + |SpelledOne(m)|, ms);
    }
    WrittenMore(fmt, i, m, ms);
  }

  /** The modifiers of any directive in any format can be read in this way. */
  lemma {:induction false} Decomposed(fmt: string, i: nat) returns (ms: seq<Mod>)
    requires Terminated(fmt, '\0') && i < |fmt|
    ensures Written(fmt, i, ms)
    decreases |fmt| - i
  {
    hide Written, SpelledOne, ModOk, Terminated, IsDigit, IsModifier;
    if !IsModifier(fmt[i]) {
      ms := [];
      WrittenNone(fmt, i);
    } else {
      var m := FirstMod(fmt, i);
      var j := i + |SpelledOne(m)|;
      ms := Decomposed(fmt, j);
      WrittenFirst(fmt, i, m, ms);
      ms := [m] + ms;
    }
  }
}
