/** Which numbers printed by the format interpreter `strtol` reads back. */
module RoundTrip {
  import opened CStrings
  import opened Digits
  import opened Directives
  import opened Int32
  import opened Printfmt
  import opened Strtol

  lemma DigitCodeValue(d: nat)
    requires d < 16
    ensures DigitValue(DigitCode(d)) == d && !IsBlank(DigitCode(d))
    ensures DigitCode(d) != '+' as int && DigitCode(d) != '-' as int && DigitCode(d) != 'x' as int
  {
  }

  lemma ScanNext(ds: seq<nat>, base: nat, v: nat, next: nat)
    requires ds != [] && Below(ds, 16) && Below(ds, base) && next == v * base + ds[0]
    ensures var r := Scan(DigitCodes(ds[1..]), base, Wrapped(next));
            Scan(DigitCodes(ds), base, Wrapped(v)) == (r.0, r.1 + 1)
  {
    hide DigitCode, DigitValue, Wrapped, Scan;
    var s := DigitCodes(ds);
    DigitCodeValue(ds[0]);
    WrappedDigit(v, base, ds[0]);
    assert s[0] == DigitCode(ds[0]) && s[1..] == DigitCodes(ds[1..]);
    ScanFirst(s, base, Wrapped(v));
  }

  lemma {:induction false} ScanNumeral(ds: seq<nat>, base: nat, v: nat)
    requires Below(ds, 16) && Below(ds, base)
    ensures Scan(DigitCodes(ds), base, Wrapped(v)) == (Wrapped(Value(v, ds, base)), |ds|)
    ensures |DigitCodes(ds)| == |ds|
    decreases |ds|
  {
    if ds != [] {
      hide DigitCode, Wrapped, Scan, Value;
      ValueFirst(v, ds, base);
      ScanNext(ds, base, v, v * base + ds[0]);
      ScanNumeral(ds[1..], base, v * base + ds[0]);
    }
  }

  /** What is read of a string without a sign, after its blanks. */
  lemma ParsedUnsigned(s: seq<int>, base: int, k: nat)
    requires k <= |s| && k == Blanks(s) && Sign(s[k..]) == (0, false)
    ensures var p := Prefix(s[k..], base);
            var r := Scan(s[k..][p.0..], p.1, 0);
            Parsed(s, base) == (r.0, k + p.0 + r.1)
  {
    hide Prefix, Scan, Blanks, Sign, Wrapped;
    var p := Prefix(s[k..], base);
    assert s[k..][p.0..] == s[k + p.0..];
  }

  /** What is read after a minus. */
  lemma ParsedMinus(s: seq<int>, base: int)
    requires s != [] && s[0] == '-' as int
    ensures var t := s[1..];
            var p := Prefix(t, base);
            var r := Scan(t[p.0..], p.1, 0);
            Parsed(s, base) == (Wrapped(-r.0), 1 + p.0 + r.1)
  {
    hide Prefix, Scan, Wrapped;
    var p := Prefix(s[1..], base);
    assert s[1..][p.0..] == s[1 + p.0..] && s[0..] == s;
  }

  /** Digits alone are read from the first to the last. */
  lemma PlainDigits(ds: seq<nat>, base: nat)
    requires ds != [] && Below(ds, 16) && Below(ds, base) && 2 <= base
    ensures var s := DigitCodes(ds);
            && Blanks(s) == 0 && Sign(s) == (0, false) && Prefix(s, base) == (0, base)
            && Scan(s, base, 0) == (Wrapped(Value(0, ds, base)), |s|)
            && Parsed(s, base) == (Wrapped(Value(0, ds, base)), |s|)
  {
    hide DigitCode, DigitValue;
    var s := DigitCodes(ds);
    ScanNumeral(ds, base, 0);
    DigitCodeValue(ds[0]);
    if 2 <= |ds| {
      DigitCodeValue(ds[1]);
      assert s[1] == DigitCodes(ds[1..])[0];
    }
    assert s[0..] == s;
    ParsedUnsigned(s, base, 0);
  }

  function Zeros(k: nat): seq<nat> { seq(k, _ => 0) }

  lemma ZeroInFront(ds: seq<nat>)
    requires Below(ds, 16)
    ensures Below([0] + ds, 16) && DigitCodes([0] + ds) == ['0' as int] + DigitCodes(ds)
  {
    assert ([0] + ds)[1..] == ds;
  }

  lemma {:induction false} ZeroCodes(k: nat, ds: seq<nat>)
    requires Below(ds, 16)
    ensures Below(Zeros(k) + ds, 16) && DigitCodes(Zeros(k) + ds) == Repeat('0' as int, k) + DigitCodes(ds)
    decreases k
  {
    hide DigitCodes, Below;
    if k == 0 {
      assert Zeros(0) + ds == ds && Repeat('0' as int, 0) + DigitCodes(ds) == DigitCodes(ds);
    } else {
      ZeroCodes(k - 1, ds);
      ZeroInFront(Zeros(k - 1) + ds);
      assert Zeros(k) + ds == [0] + (Zeros(k - 1) + ds);
      assert Repeat('0' as int, k) == ['0' as int] + Repeat('0' as int, k - 1);
    }
  }

  lemma {:induction false} BlanksInFront(k: nat, s: seq<int>)
    ensures Blanks(Repeat(' ' as int, k) + s) == k + Blanks(s)
    decreases k
  {
    var t := Repeat(' ' as int, k) + s;
    if k == 0 {
      assert t == s;
    } else {
      assert t[1..] == Repeat(' ' as int, k - 1) + s;
      BlanksInFront(k - 1, s);
    }
  }

  /** How many padding characters a number gets. */
  function Pads(n: nat, base: nat, width: int): nat
    requires 2 <= base
  {
    var k := width - |Numeral(n, base)|;
    if k < 0 then 0 else k
  }

  predicate IsPadding(c: char) { c == ' ' || c == '0' || c == '-' }

  /** A number without padding, or padded with zeros, is all digits. */
  lemma ZeroPadded(n: nat, base: nat, width: int, padc: char) returns (ds: seq<nat>)
    requires 2 <= base <= 16 && (padc == '0' || Pads(n, base, width) == 0)
    ensures ds != [] && Below(ds, 16) && Below(ds, base) && Value(0, ds, base) == n
    ensures PaddedNumber(n, base, width, padc) == DigitCodes(ds)
  {
    var k, num := Pads(n, base, width), Numeral(n, base);
    NumeralBelow(n, base);
    NumeralValue(n, base);
    ds := Zeros(k) + num;
    ZeroCodes(k, num);
    LeadingZeros(Zeros(k), num, base);
    if k == 0 {
      assert ds == num && Repeat(padc as int, width - |num|) == [];
      assert [] + DigitCodes(num) == DigitCodes(num);
    }
  }

  /** What is read of `n` after `k` padding characters, in `len` characters altogether. */
  function ReadBack(n: nat, k: nat, padc: char, len: nat): (int, nat) {
    if k == 0 || padc != '-' then (Wrapped(n), len) else if k == 1 then (Wrapped(-(n as int)), len) else (0, 1)
  }

  /** What `strtol` makes of a number printed with padding. */
  lemma PaddedParsed(n: nat, base: nat, width: int, padc: char)
    requires 2 <= base <= 16 && IsPadding(padc)
    ensures var out := PaddedNumber(n, base, width, padc);
            var k := Pads(n, base, width);
            && k < |out|
            && (padc == '0' || k == 0 ==>
                  && Blanks(out) == 0 && Sign(out) == (0, false)
                  && Prefix(out, base) == (0, base) && Scan(out, base, 0) == (Wrapped(n), |out|))
            && (padc != '0' && 0 < k ==> out[0] == padc as int)
            && Parsed(out, base) == ReadBack(n, k, padc, |out|)
  {
    var out := PaddedNumber(n, base, width, padc);
    var k := Pads(n, base, width);
    if padc == '0' || k == 0 {
      var ds := ZeroPadded(n, base, width, padc);
      ScanNumeral(ds, base, 0);
      PlainDigits(ds, base);
      NumeralBelow(n, base);
      ScanNumeral(Numeral(n, base), base, 0);
    } else {
      PaddedOther(n, base, width, padc);
    }
  }

  lemma PaddedOther(n: nat, base: nat, width: int, padc: char)
    requires 2 <= base <= 16 && (padc == ' ' || padc == '-') && 0 < Pads(n, base, width)
    ensures var out := PaddedNumber(n, base, width, padc);
            var k := Pads(n, base, width);
            && k < |out| && out[0] == padc as int
            && Parsed(out, base) == ReadBack(n, k, padc, |out|)
  {
    hide DigitCode, DigitValue, DigitCodes, Scan, Prefix, Parsed, Wrapped;
    var num, k := Numeral(n, base), Pads(n, base, width);
    var out := PaddedNumber(n, base, width, padc);
    NumeralBelow(n, base);
    NumeralValue(n, base);
    ScanNumeral(num, base, 0);
    PlainDigits(num, base);
    var ds := DigitCodes(num);
    assert ds[0..] == ds;
    assert out == Repeat(padc as int, k) + ds;
    if padc == ' ' {
      BlanksInFront(k, ds);
      assert out[k..] == ds;
      ParsedUnsigned(out, base, k);
    } else {
      ParsedMinus(out, base);
      if k == 1 {
        WrappedMinus(n);
        assert out[1..] == ds;
      } else {
        MinusStops(out[1..], base);
      }
    }
  }

  lemma MinusStops(s: seq<int>, base: nat)
    requires 2 <= base && s != [] && (s[0] == '-' as int || s[0] == ' ' as int)
    ensures Prefix(s, base) == (0, base) && Scan(s[0..], base, 0) == (0, 0)
  {
  }

  /**
   * An unsigned number, in the base it was printed in, is read back whole exactly when it
   * fits a `long` and is not padded with '-', which counts as a sign.
   */
  lemma UnsignedRoundTrip(n: nat, base: nat, width: int, padc: char)
    requires 2 <= base <= 16 && IsPadding(padc)
    ensures var out := PaddedNumber(n, base, width, padc);
            var k := Pads(n, base, width);
            Parsed(out, base) == (n, |out|) <==> Fits(n) && (k == 0 || padc != '-' || (k == 1 && n == 0))
  {
    hide PaddedNumber, Parsed, Pads;
    PaddedParsed(n, base, width, padc);
  }

  /** A minus in front of a padded number. */
  lemma MinusParsed(n: nat, width: int, padc: char)
    requires IsPadding(padc)
    ensures var out := ['-' as int] + PaddedNumber(n, 10, width, padc);
            Parsed(out, 10) == if padc == '0' || Pads(n, 10, width) == 0 then (Wrapped(-(n as int)), |out|) else (0, 1)
  {
    hide PaddedNumber, Pads, Scan, Prefix, Parsed, Wrapped;
    var tail := PaddedNumber(n, 10, width, padc);
    var out := ['-' as int] + tail;
    PaddedParsed(n, 10, width, padc);
    WrappedMinus(n);
    ParsedMinus(out, 10);
    assert out[1..] == tail && tail[0..] == tail;
    if padc != '0' && 0 < Pads(n, 10, width) {
      MinusStops(tail, 10);
    }
  }

  /**
   * A decimal number with its sign is read back whole exactly when it fits a `long`, nothing
   * comes between sign and digits but zeros, and no '-' is mistaken for a sign.  Of those that
   * fit only the lowest does so by an overflow.
   */
  lemma SignedRoundTrip(v: int, f: Flags)
    requires IsPadding(f.padc)
    ensures var out := SignedNumber(v, f);
            var k := Pads(if v < 0 then -v else v, 10, f.width);
            Parsed(out, 10) == (v, |out|) <==>
            Fits(v) && (k == 0 || f.padc == '0' || (f.padc == ' ' && 0 <= v) || (f.padc == '-' && k == 1 && v == 0))
  {
    hide PaddedNumber, Pads, Parsed;
    if 0 <= v {
      UnsignedRoundTrip(v, 10, f.width, f.padc);
    } else {
      MinusParsed(-v, f.width, f.padc);
      PaddedParsed(-v, 10, f.width, f.padc);
    }
  }

  /** A number in base 16 after its prefix. */
  lemma PointerParsed(n: nat, width: int, padc: char, base: int)
    requires IsPadding(padc) && (base == 0 || base == 16)
    ensures var out := ['0' as int, 'x' as int] + PaddedNumber(n, 16, width, padc);
            && 2 < |out|
            && Parsed(out, base) == if padc == '0' || Pads(n, 16, width) == 0 then (Wrapped(n), |out|) else (0, 2)
  {
    hide PaddedNumber, Pads, Scan, Parsed, Wrapped;
    var tail := PaddedNumber(n, 16, width, padc);
    var out := ['0' as int, 'x' as int] + tail;
    PaddedParsed(n, 16, width, padc);
    ParsedUnsigned(out, base, 0);
    assert out[0..] == out && out[2..] == tail && tail[0..] == tail;
    if padc != '0' && 0 < Pads(n, 16, width) {
      MinusStops(tail, 16);
    }
  }

  /**
   * A printed pointer is read back, in base 16 or 0, with all its bits and to its end, exactly unless
   * it is padded other than with zeros.  Bit 31, set in every kernel address, comes back as the sign.
   */
  lemma PointerRoundTrip(bits: uint32, f: Flags, base: int)
    requires IsPadding(f.padc) && (base == 0 || base == 16)
    ensures var out := ['0' as int, 'x' as int] + PaddedNumber(bits, 16, f.width, f.padc);
            var (value, used) := Parsed(out, base);
            var plain := Pads(bits, 16, f.width) == 0 || f.padc == '0';
            && (value % RANGE32 == bits && used == |out| <==> plain)
            && (plain ==> value == if bits <= INT_MAX then bits else bits - RANGE32)
  {
    hide PaddedNumber, Pads, Parsed;
    PointerParsed(bits, f.width, f.padc, base);
    WrappedBits(bits);
  }

  /** The padding characters considered above are all that a directive can ask for. */
  lemma PaddingOfDirectives(fmt: string, i: nat, f: Flags, args: seq<Arg>)
    requires Terminated(fmt, '\0') && i < |fmt| && IsPadding(f.padc)
    ensures var d := Modifiers(fmt, i, f, args); d.Directive? ==> IsPadding(d.flags.padc)
  {
    hide Modifiers;
    ModifiersMean(fmt, i, f, args);
  }
}
