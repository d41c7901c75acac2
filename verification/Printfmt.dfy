/** What a format string and its arguments mean, directive by directive. */
module Printfmt {
  import opened CStrings
  import opened Digits
  import opened Int32

  type uint64 = x: int | 0 <= x < 0x1_0000_0000_0000_0000

  /** An argument slot: 32 bits, 64 bits, a string as its signed characters, or a null string pointer. */
  datatype Arg = Word(bits: uint32) | Quad(wide: uint64) | Text(s: seq<int>) | NullText

  datatype Flags = Flags(padc: char, width: int, precision: int, lflag: nat, alt: bool)

  const PLAIN := Flags(' ', -1, -1, 0, false)

  /** The characters passed to `putch` and the arguments left over, or a failed match of directives and arguments. */
  datatype Rendering = Rendered(out: seq<int>, rest: seq<Arg>) | Mismatch

  function After(out: seq<int>, r: Rendering): Rendering {
    if r.Mismatch? then Mismatch else Rendered(out + r.out, r.rest)
  }

  function Codes(s: string): seq<int> {
    if s == "" then [] else [s[0] as int] + Codes(s[1..])
  }

  function Repeat(c: int, n: int): seq<int> {
    seq(if n < 0 then 0 else n, _ => c)
  }

  /** A 32-bit or 64-bit slot read as a signed number. */
  function Signed(bits: nat, range: nat): int {
    if bits < range / 2 then bits else bits - range
  }

  const RANGE64: nat := 0x1_0000_0000_0000_0000

  predicate IsDigit(c: char) { '0' <= c <= '9' }

  function DigitOf(c: char): nat
    requires IsDigit(c)
  {
    (c - '0') as nat
  }

  /** The end of the run of digits at `i`. */
  function DigitsEnd(fmt: string, i: nat): (j: nat)
    requires Terminated(fmt, '\0') && i < |fmt|
    ensures i <= j < |fmt|
    decreases |fmt| - i
  {
    if IsDigit(fmt[i]) then DigitsEnd(fmt, i + 1) else i
  }

  lemma {:induction false} DigitsAll(fmt: string, i: nat, k: nat)
    requires Terminated(fmt, '\0') && i < |fmt| && i <= k < DigitsEnd(fmt, i)
    ensures IsDigit(fmt[k])
    decreases |fmt| - i
  {
    if i < k {
      DigitsAll(fmt, i + 1, k);
    }
  }

  lemma {:induction false} RunStops(fmt: string, i: nat)
    requires Terminated(fmt, '\0') && i < |fmt|
    ensures !IsDigit(fmt[DigitsEnd(fmt, i)])
    decreases |fmt| - i
  {
    if IsDigit(fmt[i]) {
      RunStops(fmt, i + 1);
    }
  }

  /** The number, an `int`, that the digits from `i` on append to `v`. */
  function NumberAt(fmt: string, i: nat, v: int): int
    requires i <= |fmt|
    decreases |fmt| - i
  {
    if i < |fmt| && IsDigit(fmt[i]) then NumberAt(fmt, i + 1, Wrapped(v * 10 + DigitOf(fmt[i]))) else v
  }

  /** A number in a directive is the width, unless there is one already. */
  function WithNumber(f: Flags, n: int): Flags {
    if f.width < 0 then f.(width := n, precision := -1) else f.(precision := n)
  }

  predicate IsModifier(c: char) {
    c == '-' || IsDigit(c) || c == '*' || c == '.' || c == '#' || c == 'l'
  }

  /** Where the conversion character is, what the modifiers before it amount to, and the arguments they leave. */
  datatype Directive = Directive(at: nat, flags: Flags, rest: seq<Arg>) | BadStar

  function Modifiers(fmt: string, i: nat, f: Flags, args: seq<Arg>): (d: Directive)
    requires Terminated(fmt, '\0') && i < |fmt|
    ensures d.Directive? ==> i <= d.at < |fmt| && !IsModifier(fmt[d.at])
    decreases |fmt| - i
  {
    var c := fmt[i];
    if !IsModifier(c) then Directive(i, f, args)
    else if c == '-' then Modifiers(fmt, i + 1, f.(padc := '-'), args)
    else if c == '0' then Modifiers(fmt, i + 1, f.(padc := '0'), args)
    else if IsDigit(c) then
      Modifiers(fmt, DigitsEnd(fmt, i + 1), WithNumber(f, NumberAt(fmt, i, 0)), args)
    else if c == '*' then
      if args == [] || !args[0].Word? then BadStar
      else Modifiers(fmt, i + 1, WithNumber(f, Signed(args[0].bits, RANGE32)), args[1..])
    else if c == '.' then Modifiers(fmt, i + 1, if f.width < 0 then f.(width := 0) else f, args)
    else if c == '#' then Modifiers(fmt, i + 1, f.(alt := true), args)
    else Modifiers(fmt, i + 1, f.(lflag := f.lflag + 1), args)
  }

  function DigitCodes(ds: seq<nat>): seq<int>
    requires Below(ds, 16)
  {
    if ds == [] then [] else [DigitCode(ds[0])] + DigitCodes(ds[1..])
  }

  function DigitCode(d: nat): int
    requires d < 16
  {
    "0123456789abcdef"[d] as int
  }

  /** A number: the padding, whatever character it is, goes before the digits. */
  function PaddedNumber(num: nat, base: nat, width: int, padc: char): seq<int>
    requires 2 <= base <= 16
  {
    NumeralBelow(num, base);
    Repeat(padc as int, width - |Numeral(num, base)|) + DigitCodes(Numeral(num, base))
  }

  /** A width can be counted down by the digits of a number and stay an `int`. */
  predicate NumberCounts(width: int, num: nat, base: nat)
    requires 2 <= base
  {
    INT_MIN <= width - |Numeral(num, base)|
  }

  /** The sign goes before the padding. */
  function SignedNumber(v: int, f: Flags): seq<int> {
    if v < 0 then ['-' as int] + PaddedNumber(-v, 10, f.width, f.padc) else PaddedNumber(v, 10, f.width, f.padc)
  }

  function Masked(s: seq<int>, alt: bool): seq<int> {
    if s == [] then []
    else [if alt && (s[0] < ' ' as int || s[0] > '~' as int) then '?' as int else s[0]] + Masked(s[1..], alt)
  }

  /** The part of a string that the precision lets through. */
  function Shown(s: seq<int>, precision: int): seq<int> {
    if precision < 0 || |s| <= precision then s else s[..precision]
  }

  function PaddedText(s: seq<int>, f: Flags): seq<int> {
    var shown := Shown(s, f.precision);
    var pad := if f.width <= 0 then 0 else f.width - |shown|;
    if f.padc == '-' then Masked(shown, f.alt) + Repeat(' ' as int, pad)
    else Repeat(f.padc as int, pad) + Masked(shown, f.alt)
  }

  /** A width can be counted down by `n` characters, and once more by them when it pads on the left. */
  predicate TextCounts(f: Flags, n: nat) {
    var width := if f.width <= 0 || f.padc == '-' then f.width else if f.width < n then f.width - n else 0;
    INT_MIN <= width - n
  }

  const MAXERROR: nat := 7

  function ErrorString(err: nat): string
    requires err < MAXERROR
  {
    ["", "unspecified error", "bad environment", "invalid parameter", "out of memory", "out of environments",
     "segmentation fault"][err]
  }

  function ErrorText(err: nat): seq<int> {
    if 0 < err < MAXERROR then Codes(ErrorString(err)) else Codes("error ") + PaddedNumber(err, 10, -1, ' ')
  }

  predicate IsConversion(c: char) {
    c in "cesduopx%"
  }

  /** The next argument as an integer of the size that the `l` modifiers ask for. */
  predicate HasInteger(args: seq<Arg>, lflag: nat) {
    args != [] && if lflag >= 2 then args[0].Quad? else args[0].Word?
  }

  function Unsigned(a: Arg): nat
    requires a.Word? || a.Quad?
  {
    if a.Word? then a.bits else a.wide
  }

  function SignedValue(a: Arg): int
    requires a.Word? || a.Quad?
  {
    if a.Word? then Signed(a.bits, RANGE32) else Signed(a.wide, RANGE64)
  }

  function Magnitude(v: int): nat {
    if v < 0 then -v else v
  }

  function BaseOf(c: char): (base: nat)
    ensures 2 <= base <= 16
  {
    if c == 'd' || c == 'u' then 10 else if c == 'o' then 8 else 16
  }

  /** The number that an integer conversion prints, without its sign. */
  function NumberOf(c: char, a: Arg): nat
    requires a.Word? || a.Quad?
  {
    if c == 'd' then Magnitude(SignedValue(a)) else Unsigned(a)
  }

  /**
   * One conversion.  No claim is made where C leaves the outcome undefined: arguments of the wrong kind, the
   * lowest error code, whose magnitude is no `int`, and a width counted down below the lowest `int`.
   */
  function Convert(c: char, f: Flags, args: seq<Arg>): Rendering
    requires IsConversion(c)
  {
    if c == '%' then Rendered(['%' as int], args)
    else if args == [] then Mismatch
    else if c == 's' then
      if !args[0].Text? && !args[0].NullText? then Mismatch
      else
        var s := if args[0].Text? then args[0].s else Codes("(null)");
        if TextCounts(f, |Shown(s, f.precision)|) then Rendered(PaddedText(s, f), args[1..]) else Mismatch
    else if c == 'c' || c == 'e' || c == 'p' then
      if !args[0].Word? then Mismatch
      else
        var v := SignedValue(args[0]);
        if c == 'c' then Rendered([v], args[1..])
        else if c == 'p' then
          if !NumberCounts(f.width, args[0].bits, 16) then Mismatch
          else Rendered(['0' as int, 'x' as int] + PaddedNumber(args[0].bits, 16, f.width, f.padc), args[1..])
        else if v == INT_MIN then Mismatch
        else Rendered(ErrorText(Magnitude(v)), args[1..])
    else if !HasInteger(args, f.lflag) || !NumberCounts(f.width, NumberOf(c, args[0]), BaseOf(c)) then Mismatch
    else if c == 'd' then Rendered(SignedNumber(SignedValue(args[0]), f), args[1..])
    else Rendered(PaddedNumber(Unsigned(args[0]), BaseOf(c), f.width, f.padc), args[1..])
  }

  /**
   * The meaning of the format from `i` on.  A directive that ends in no known
   * conversion stands for its own text.
   */
  function Render(fmt: string, i: nat, args: seq<Arg>): Rendering
    requires Terminated(fmt, '\0') && i < |fmt|
    decreases |fmt| - i
  {
    if fmt[i] == '\0' then Rendered([], args)
    else if fmt[i] != '%' then After([fmt[i] as int], Render(fmt, i + 1, args))
    else
      var d := Modifiers(fmt, i + 1, PLAIN, args);
      if d.BadStar? then Mismatch
      else if !IsConversion(fmt[d.at]) then After(Codes(fmt[i..d.at]), Render(fmt, d.at, d.rest))
      else
        var r := Convert(fmt[d.at], d.flags, d.rest);
        if r.Mismatch? then Mismatch else After(r.out, Render(fmt, d.at + 1, r.rest))
  }
}
