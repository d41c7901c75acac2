/**
 * `vprintfmt` and `printnum`.  What a call passes to `putch` is returned as one
 * sequence, since `putch` cannot influence the formatting.
 */
module Vprintfmt {
  import opened CStrings
  import opened Digits
  import opened Int32
  import opened Printfmt

  lemma RepeatMore(c: int, n: nat)
    ensures Repeat(c, n) + [c] == Repeat(c, n + 1)
  {
  }

  lemma {:induction false} DigitCodesSnoc(ds: seq<nat>, d: nat)
    requires Below(ds, 16) && d < 16
    ensures Below(ds + [d], 16) && DigitCodes(ds + [d]) == DigitCodes(ds) + [DigitCode(d)]
  {
    if ds != [] {
      DigitCodesSnoc(ds[1..], d);
      assert (ds + [d])[1..] == ds[1..] + [d];
    }
  }

  /** `n` more of one character, at the end of what has been put out so far. */
  method Pad(before: seq<int>, c: int, n: int) returns (out: seq<int>)
    ensures out == before + Repeat(c, n)
  {
    out := before;
    var w := n;
    while w > 0
      invariant w <= n && (0 < n ==> 0 <= w)
      invariant out == before + Repeat(c, if n <= 0 then 0 else n - w)
      decreases w
    {
      RepeatMore(c, n - w);
      out := out + [c];
      w := w - 1;
    }
  }

  /** A number of several digits is printed as its leading part, in one column less, and its last digit. */
  lemma PaddedLast(num: nat, base: nat, width: int, padc: char)
    requires 2 <= base <= 16 && base <= num
    ensures num % base < 16
    ensures PaddedNumber(num, base, width, padc) ==
            PaddedNumber(num / base, base, width - 1, padc) + [DigitCode(num % base)]
  {
    hide DigitCodes, DigitCode;
    NumeralBelow(num, base);
    NumeralBelow(num / base, base);
    DivMod(num, base);
    DigitCodesSnoc(Numeral(num / base, base), num % base);
  }

  lemma PaddedFirst(num: nat, base: nat, width: int, padc: char)
    requires 2 <= base <= 16 && num < base
    ensures num % base == num
    ensures PaddedNumber(num, base, width, padc) == Repeat(padc as int, width - 1) + [DigitCode(num)]
  {
    hide Repeat, DigitCode;
    NumeralBelow(num, base);
    DivMod(num, base);
    assert num / base == 0;
    assert DigitCodes([num]) == [DigitCode(num)] + DigitCodes([]);
  }

  /** `printnum`: the leading digits first, by recursion; the padding before the very first. */
  method Printnum(num: nat, base: nat, width: int, padc: char) returns (out: seq<int>)
    requires 2 <= base <= 16
    ensures out == PaddedNumber(num, base, width, padc)
    decreases num
  {
    hide PaddedNumber, DigitCode;
    DivMod(num, base);
    if num >= base {
      PaddedLast(num, base, width, padc);
      out := Printnum(num / base, base, width - 1, padc);
    } else {
      PaddedFirst(num, base, width, padc);
      out := Pad([], padc as int, width - 1);
    }
    out := out + [DigitCode(num % base)];
  }

  /** `strnlen`; a negative bound is a huge one. */
  method Strnlen(s: seq<int>, size: int) returns (n: nat)
    ensures n == |Shown(s, size)|
  {
    n := 0;
    while (size < 0 || n < size) && n < |s|
      invariant n <= |s| && (0 <= size ==> n <= size)
    {
      n := n + 1;
    }
  }

  lemma {:induction false} MaskedSnoc(s: seq<int>, x: int, alt: bool)
    ensures Masked(s + [x], alt) == Masked(s, alt) + Masked([x], alt)
  {
    if s == [] {
      assert s + [x] == [x];
    } else {
      assert (s + [x])[1..] == s[1..] + [x];
      MaskedSnoc(s[1..], x, alt);
    }
  }

  /** The characters of a string that the precision lets through. */
  method PutString(before: seq<int>, s: seq<int>, precision0: int, alt: bool) returns (out: seq<int>, k: nat)
    ensures out == before + Masked(Shown(s, precision0), alt) && k == |Shown(s, precision0)|
  {
    var precision := precision0;
    out, k := before, 0;
    while k < |s| && (precision < 0 || precision > 0)
      invariant 0 <= k <= |s| && precision == (if precision0 < 0 then precision0 else precision0 - k)
      invariant precision0 < 0 || 0 <= precision
      invariant out == before + Masked(s[..k], alt)
    {
      MaskedSnoc(s[..k], s[k], alt);
      assert s[..k + 1] == s[..k] + [s[k]];
      precision := if precision < 0 then precision else precision - 1;
      if alt && (s[k] < ' ' as int || s[k] > '~' as int) {
        out := out + ['?' as int];
      } else {
        out := out + [s[k]];
      }
      k := k + 1;
    }
    assert s[..k] == Shown(s, precision0);
  }

  /** The string conversion: padding on the left, the characters, padding on the right. */
  method PrintText(s: seq<int>, f: Flags) returns (out: seq<int>)
    ensures out == PaddedText(s, f)
  {
    hide Repeat, Masked;
    var width, n, k := f.width, 0, 0;
    out := [];
    if width > 0 && f.padc != '-' {
      n := Strnlen(s, f.precision);
      out := Pad(out, f.padc as int, width - n);
      width := if width - n < 0 then width - n else 0;
    }
    out, k := PutString(out, s, f.precision, f.alt);
    width := width - k;
    RepeatNone(' ' as int, width);
    RepeatNone(f.padc as int, f.width - k);
    out := Pad(out, ' ' as int, width);
  }

  lemma RepeatNone(c: int, n: int)
    ensures n <= 0 ==> Repeat(c, n) == []
    ensures Repeat(c, 0) == []
  {
  }

  /** The width field: a run of digits. */
  method ReadNumber(fmt: string, i: nat) returns (n: int, j: nat)
    requires Terminated(fmt, '\0') && i < |fmt| && Printfmt.IsDigit(fmt[i])
    ensures n == NumberAt(fmt, i, 0) && j == DigitsEnd(fmt, i + 1)
  {
    n, j := Wrapped(0 * 10 + DigitOf(fmt[i])), i + 1;
    while Printfmt.IsDigit(fmt[j])
      invariant i < j < |fmt|
      invariant NumberAt(fmt, j, n) == NumberAt(fmt, i, 0) && DigitsEnd(fmt, j) == DigitsEnd(fmt, i + 1)
      decreases |fmt| - j
    {
      n := Wrapped(n * 10 + DigitOf(fmt[j]));
      j := j + 1;
    }
  }

  /** From just after the '%' to the conversion character. */
  method ReadModifiers(fmt: string, i: nat, args: seq<Arg>) returns (d: Directive)
    requires Terminated(fmt, '\0') && i < |fmt|
    ensures d == Modifiers(fmt, i, PLAIN, args)
  {
    hide NumberAt, DigitsEnd;
    var j, f, a := i, PLAIN, args;
    while IsModifier(fmt[j])
      invariant j < |fmt|
      invariant Modifiers(fmt, j, f, a) == Modifiers(fmt, i, PLAIN, args)
      decreases |fmt| - j
    {
      var c := fmt[j];
      if c == '-' {
        f, j := f.(padc := '-'), j + 1;
      } else if c == '0' {
        f, j := f.(padc := '0'), j + 1;
      } else if Printfmt.IsDigit(c) {
        var n, k := ReadNumber(fmt, j);
        f, j := WithNumber(f, n), k;
      } else if c == '*' {
        if a == [] || !a[0].Word? {
          return BadStar;
        }
        f, a, j := WithNumber(f, Signed(a[0].bits, RANGE32)), a[1..], j + 1;
      } else if c == '.' {
        if f.width < 0 {
          f := f.(width := 0);
        }
        j := j + 1;
      } else if c == '#' {
        f, j := f.(alt := true), j + 1;
      } else {
        f, j := f.(lflag := f.lflag + 1), j + 1;
      }
    }
    d := Directive(j, f, a);
  }

  /** One conversion, without its modifiers. */
  method PrintConversion(c: char, f: Flags, args: seq<Arg>) returns (r: Rendering)
    requires IsConversion(c)
    ensures r == Convert(c, f, args)
  {
    hide PaddedNumber, PaddedText, Signed, ErrorString, Codes, NumberCounts, TextCounts, Shown, Wrapped;
    if c == '%' {
      return Rendered(['%' as int], args);
    }
    if args == [] {
      return Mismatch;
    }
    var out;
    if c == 's' {
      if !args[0].Text? && !args[0].NullText? {
        return Mismatch;
      }
      var s := if args[0].Text? then args[0].s else Codes("(null)");
      if !TextCounts(f, |Shown(s, f.precision)|) {
        return Mismatch;
      }
      out := PrintText(s, f);
    } else if c == 'c' {
      if !args[0].Word? {
        return Mismatch;
      }
      out := [SignedValue(args[0])];
    } else if c == 'e' {
      if !args[0].Word? || SignedValue(args[0]) == INT_MIN {
        return Mismatch;
      }
      out := PrintError(SignedValue(args[0]));
    } else if c == 'p' {
      if !args[0].Word? || !NumberCounts(f.width, args[0].bits, 16) {
        return Mismatch;
      }
      var ds := Printnum(args[0].bits, 16, f.width, f.padc);
      out := ['0' as int, 'x' as int] + ds;
    } else {
      if !HasInteger(args, f.lflag) || !NumberCounts(f.width, NumberOf(c, args[0]), BaseOf(c)) {
        return Mismatch;
      }
      out := PrintInteger(c, args[0], f);
    }
    r := Rendered(out, args[1..]);
  }

  method PrintError(err0: int) returns (out: seq<int>)
    ensures out == ErrorText(Magnitude(err0))
  {
    hide PaddedNumber, Codes, ErrorString;
    var err := err0;
    if err < 0 {
      err := -err;
    }
    if err >= MAXERROR || err == 0 {
      var ds := Printnum(err, 10, -1, ' ');
      out := Codes("error ") + ds;
    } else {
      out := Codes(ErrorString(err));
    }
  }

  method PrintInteger(c: char, a: Arg, f: Flags) returns (out: seq<int>)
    requires a.Word? || a.Quad?
    ensures out == if c == 'd' then SignedNumber(SignedValue(a), f)
                   else PaddedNumber(Unsigned(a), BaseOf(c), f.width, f.padc)
  {
    hide PaddedNumber, SignedValue, Unsigned;
    if c == 'd' {
      var v := SignedValue(a);
      if v < 0 {
        var ds := Printnum(-v, 10, f.width, f.padc);
        out := ['-' as int] + ds;
      } else {
        out := Printnum(v, 10, f.width, f.padc);
      }
    } else {
      var base := if c == 'u' then 10 else if c == 'o' then 8 else 16;
      out := Printnum(Unsigned(a), base, f.width, f.padc);
    }
  }

  lemma AfterAfter(a: seq<int>, b: seq<int>, r: Rendering)
    ensures After(a, After(b, r)) == After(a + b, r)
  {
    if r.Rendered? {
      assert a + (b + r.out) == (a + b) + r.out;
    }
  }

  /** Before the conversion character there are only modifiers. */
  lemma {:induction false} OnlyModifiers(fmt: string, i: nat, f: Flags, args: seq<Arg>, k: nat)
    requires Terminated(fmt, '\0') && i < |fmt|
    requires var d := Modifiers(fmt, i, f, args); d.Directive? && i <= k < d.at
    ensures IsModifier(fmt[k])
    decreases |fmt| - i
  {
    var c := fmt[i];
    if k == i {
    } else if c == '-' {
      OnlyModifiers(fmt, i + 1, f.(padc := '-'), args, k);
    } else if c == '0' {
      OnlyModifiers(fmt, i + 1, f.(padc := '0'), args, k);
    } else if Printfmt.IsDigit(c) {
      if k < DigitsEnd(fmt, i + 1) {
        DigitsAll(fmt, i + 1, k);
      } else {
        OnlyModifiers(fmt, DigitsEnd(fmt, i + 1), WithNumber(f, NumberAt(fmt, i, 0)), args, k);
      }
    } else if c == '*' {
      OnlyModifiers(fmt, i + 1, WithNumber(f, Signed(args[0].bits, RANGE32)), args[1..], k);
    } else if c == '.' {
      OnlyModifiers(fmt, i + 1, if f.width < 0 then f.(width := 0) else f, args, k);
    } else if c == '#' {
      OnlyModifiers(fmt, i + 1, f.(alt := true), args, k);
    } else {
      OnlyModifiers(fmt, i + 1, f.(lflag := f.lflag + 1), args, k);
    }
  }

  /** Text without directives stands for itself. */
  lemma {:induction false} LiteralText(fmt: string, i: nat, j: nat, args: seq<Arg>)
    requires Terminated(fmt, '\0') && i <= j < |fmt|
    requires forall k | i <= k < j :: fmt[k] != '%'
    ensures Render(fmt, i, args) == After(Codes(fmt[i..j]), Render(fmt, j, args))
    decreases j - i
  {
    hide Modifiers, Convert;
    if i < j {
      LiteralText(fmt, i + 1, j, args);
      assert fmt[i..j][1..] == fmt[i + 1..j];
      AfterAfter([fmt[i] as int], Codes(fmt[i + 1..j]), Render(fmt, j, args));
    } else {
      assert fmt[i..j] == "";
      assert Codes("") == [];
    }
  }

  /** The inner loop: text up to the next '%', or to the end of the format. */
  method CopyText(fmt: string, i0: nat, args: seq<Arg>, out0: seq<int>) returns (i: nat, out: seq<int>)
    requires Terminated(fmt, '\0') && i0 < |fmt|
    ensures i0 <= i < |fmt| && (fmt[i] == '%' || fmt[i] == '\0')
    ensures After(out, Render(fmt, i, args)) == After(out0, Render(fmt, i0, args))
  {
    hide Modifiers, Convert;
    i, out := i0, out0;
    while fmt[i] != '%' && fmt[i] != '\0'
      invariant i0 <= i < |fmt|
      invariant After(out, Render(fmt, i, args)) == After(out0, Render(fmt, i0, args))
      decreases |fmt| - i
    {
      AfterAfter(out, [fmt[i] as int], Render(fmt, i + 1, args));
      out := out + [fmt[i] as int];
      i := i + 1;
    }
  }

  /** The last loop: back from an unknown conversion character to just after the '%'. */
  method Rewind(fmt: string, start: nat, at: nat, args: seq<Arg>) returns (i: nat)
    requires Terminated(fmt, '\0') && 0 < start < |fmt| && fmt[start - 1] == '%'
    requires Modifiers(fmt, start, PLAIN, args).Directive? && Modifiers(fmt, start, PLAIN, args).at == at
    ensures i == start
    ensures forall k | start <= k < at :: fmt[k] != '%'
  {
    forall k | start <= k < at
      ensures fmt[k] != '%'
    {
      OnlyModifiers(fmt, start, PLAIN, args, k);
    }
    i := at;
    while fmt[i - 1] != '%'
      invariant start <= i <= at
      decreases i
    {
      i := i - 1;
    }
  }

  /** An unknown directive printed as text, from its '%' on, means what the directive means. */
  lemma UnknownDirective(fmt: string, start: nat, args: seq<Arg>)
    requires Terminated(fmt, '\0') && 0 < start < |fmt| && fmt[start - 1] == '%'
    requires var d := Modifiers(fmt, start, PLAIN, args);
             d.Directive? && !IsConversion(fmt[d.at]) && forall k | start <= k < d.at :: fmt[k] != '%'
    ensures var rest := Modifiers(fmt, start, PLAIN, args).rest;
            After(['%' as int], Render(fmt, start, rest)) == Render(fmt, start - 1, args)
  {
    hide Modifiers, Convert;
    var d := Modifiers(fmt, start, PLAIN, args);
    LiteralText(fmt, start, d.at, d.rest);
    AfterAfter(['%' as int], Codes(fmt[start..d.at]), Render(fmt, d.at, d.rest));
    assert fmt[start - 1..d.at][1..] == fmt[start..d.at];
  }

  lemma KnownDirective(fmt: string, start: nat, args: seq<Arg>)
    requires Terminated(fmt, '\0') && 0 < start < |fmt| && fmt[start - 1] == '%'
    ensures var d := Modifiers(fmt, start, PLAIN, args);
            && (d.BadStar? ==> Render(fmt, start - 1, args) == Mismatch)
            && (d.Directive? && IsConversion(fmt[d.at]) ==>
                  var r := Convert(fmt[d.at], d.flags, d.rest);
                  d.at + 1 < |fmt| &&
                  Render(fmt, start - 1, args) ==
                  if r.Mismatch? then Mismatch else After(r.out, Render(fmt, d.at + 1, r.rest)))
  {
    hide Modifiers, Convert;
  }

  lemma TextEnds(fmt: string, i: nat, args: seq<Arg>, out: seq<int>)
    requires Terminated(fmt, '\0') && i < |fmt| && fmt[i] == '\0'
    ensures After(out, Render(fmt, i, args)) == Rendered(out, args)
  {
  }

  lemma AfterNothing(r: Rendering)
    ensures After([], r) == r
  {
  }

  /**
   * `vprintfmt`.  The position at the head of the loop always moves on, even when
   * a directive is given up and printed as it stands.
   */
  method Vprintfmt(fmt: string, args: seq<Arg>) returns (r: Rendering)
    requires Terminated(fmt, '\0')
    ensures r == Render(fmt, 0, args)
  {
    hide Modifiers, Convert, Render, Codes;
    var i, a, out := 0, args, [];
    AfterNothing(Render(fmt, 0, args));
    while true
      invariant i < |fmt| && After(out, Render(fmt, i, a)) == Render(fmt, 0, args)
      decreases |fmt| - i
    {
      i, out := CopyText(fmt, i, a, out);
      if fmt[i] == '\0' {
        TextEnds(fmt, i, a, out);
        return Rendered(out, a);
      }
      var start := i + 1;
      KnownDirective(fmt, start, a);
      var d := ReadModifiers(fmt, start, a);
      if d.BadStar? {
        return Mismatch;
      }
      if IsConversion(fmt[d.at]) {
        r := PrintConversion(fmt[d.at], d.flags, d.rest);
        if r.Mismatch? {
          return;
        }
        AfterAfter(out, r.out, Render(fmt, d.at + 1, r.rest));
        out, a, i := out + r.out, r.rest, d.at + 1;
      } else {
        i := Rewind(fmt, start, d.at, a);
        UnknownDirective(fmt, start, a);
        AfterAfter(out, ['%' as int], Render(fmt, start, d.rest));
        out, a := out + ['%' as int], d.rest;
      }
    }
  }

  lemma {:induction false} MaskedPlain(s: seq<int>)
    ensures Masked(s, false) == s
  {
    if s != [] {
      MaskedPlain(s[1..]);
    }
  }

  /** "%s" prints a string as it is: the prompt of the line editor, and the known error messages. */
  lemma StringDirective(s: seq<int>)
    requires |s| <= INT_MAX
    ensures Terminated("%s\0", '\0') && Render("%s\0", 0, [Text(s)]) == Rendered(s, [])
  {
    hide Masked, Repeat, Codes, ErrorText, PaddedNumber, SignedNumber;
    var fmt, args := "%s\0", [Text(s)];
    MaskedPlain(s);
    RepeatNone(' ' as int, 0);
    assert Modifiers(fmt, 1, PLAIN, args) == Directive(1, PLAIN, args);
    assert PaddedText(s, PLAIN) == s;
    assert args[1..] == [] && s + [] == s;
    KnownDirective(fmt, 1, args);
    TextEnds(fmt, 2, [], s);
  }

  /** "error %d" prints what the error conversion prints for an unknown code. */
  lemma ErrorDirective(err: nat)
    requires (err == 0 || MAXERROR <= err) && err <= INT_MAX
    ensures Terminated("error %d\0", '\0') && Render("error %d\0", 0, [Word(err)]) == Rendered(ErrorText(err), [])
  {
    hide PaddedNumber, Codes, Convert;
    var fmt, args := "error %d\0", [Word(err)];
    LiteralText(fmt, 0, 6, args);
    assert fmt[0..6] == "error ";
    assert Modifiers(fmt, 7, PLAIN, args) == Directive(7, PLAIN, args);
    DecimalConversion(err);
    KnownDirective(fmt, 7, args);
    TextEnds(fmt, 8, [], PaddedNumber(err, 10, -1, ' '));
  }

  lemma DecimalConversion(v: nat)
    requires v <= INT_MAX
    ensures Convert('d', PLAIN, [Word(v)]) == Rendered(PaddedNumber(v, 10, -1, ' '), [])
  {
    hide PaddedNumber, Numeral;
    NumeralShort(v, 10);
    assert [Word(v)][1..] == [];
  }
}
