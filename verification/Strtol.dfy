/** `strtol`, on a 32-bit `long`. */
module Strtol {
  import opened CStrings
  import opened Int32

  /** The value of a digit or letter, or -1. */
  function DigitValue(c: int): int {
    if '0' as int <= c <= '9' as int then c - '0' as int
    else if 'a' as int <= c <= 'z' as int then c - 'a' as int + 10
    else if 'A' as int <= c <= 'Z' as int then c - 'A' as int + 10
    else -1
  }

  predicate IsDigitIn(c: int, base: int) { 0 <= DigitValue(c) < base }

  predicate IsBlank(c: int) { c == ' ' as int || c == '\t' as int }

  function Blanks(s: seq<int>): (n: nat)
    ensures n <= |s|
  {
    if s == [] || !IsBlank(s[0]) then 0 else 1 + Blanks(s[1..])
  }

  /** The sign's length and whether it is a minus. */
  function Sign(s: seq<int>): (n: (nat, bool))
    ensures n.0 <= |s|
  {
    if s != [] && s[0] == '+' as int then (1, false)
    else if s != [] && s[0] == '-' as int then (1, true)
    else (0, false)
  }

  /** The prefix's length and the base it leads to. */
  function Prefix(s: seq<int>, base: int): (n: (nat, int))
    ensures n.0 <= |s|
  {
    if (base == 0 || base == 16) && 2 <= |s| && s[0] == '0' as int && s[1] == 'x' as int then (2, 16)
    else if base == 0 && s != [] && s[0] == '0' as int then (1, 8)
    else if base == 0 then (0, 10)
    else (0, base)
  }

  /** The digits that `s` starts with: what `v` becomes with them appended, and how many they are. */
  function Scan(s: seq<int>, base: int, v: int): (r: (int, nat))
    ensures r.1 <= |s|
    decreases |s|
  {
    if s == [] || !IsDigitIn(s[0], base) then (v, 0)
    else var r := Scan(s[1..], base, Wrapped(v * base + DigitValue(s[0]))); (r.0, r.1 + 1)
  }

  /** The number a string starts with and how many characters that takes. */
  function Parsed(s: seq<int>, base: int): (r: (int, nat))
    ensures r.1 <= |s|
  {
    var b := Blanks(s);
    var sign := Sign(s[b..]);
    var i := b + sign.0;
    var prefix := Prefix(s[i..], base);
    var j := i + prefix.0;
    var r := Scan(s[j..], prefix.1, 0);
    (if sign.1 then Wrapped(-r.0) else r.0, j + r.1)
  }

  lemma ScanFirst(s: seq<int>, base: int, v: int)
    requires s != [] && IsDigitIn(s[0], base)
    ensures var r := Scan(s[1..], base, Wrapped(v * base + DigitValue(s[0]))); Scan(s, base, v) == (r.0, r.1 + 1)
  {
  }

  /** The number read, from where its parts end. */
  lemma {:induction false} ParsedParts(s: seq<int>, base: int, b: nat, i: nat, j: nat)
    requires b <= i <= j <= |s| && b == Blanks(s)
    requires i == b + Sign(s[b..]).0 && j == i + Prefix(s[i..], base).0
    ensures var r := Scan(s[j..], Prefix(s[i..], base).1, 0);
            Parsed(s, base) == (if Sign(s[b..]).1 then Wrapped(-r.0) else r.0, j + r.1)
  {
    hide Blanks, Sign, Prefix, Scan, Wrapped;
  }

  /** The last loop of `strtol`. */
  method ScanDigits(m: seq<int>, i0: nat, base: int) returns (val: int, i: nat)
    requires Terminated(m, 0) && i0 < |m|
    ensures i0 <= i && (val, i - i0) == Scan(m[i0..|m| - 1], base, 0)
  {
    val, i := 0, i0;
    ghost var whole := Scan(m[i0..|m| - 1], base, 0);
    while true
      invariant i0 <= i < |m|
      invariant var r := Scan(m[i..|m| - 1], base, val); (r.0, r.1 + (i - i0)) == whole
      decreases |m| - i
    {
      ghost var left := m[i..|m| - 1];
      assert left != [] ==> left[0] == m[i] && left[1..] == m[i + 1..|m| - 1];
      var dig;
      if '0' as int <= m[i] <= '9' as int {
        dig := m[i] - '0' as int;
      } else if 'a' as int <= m[i] <= 'z' as int {
        dig := m[i] - 'a' as int + 10;
      } else if 'A' as int <= m[i] <= 'Z' as int {
        dig := m[i] - 'A' as int + 10;
      } else {
        break;
      }
      if dig >= base {
        break;
      }
      i, val := i + 1, Wrapped(val * base + dig);
    }
  }

  /** `strtol` on a string in memory; `end` is where its end pointer points. */
  method StrToL(m: seq<int>, base0: int) returns (val: int, end: nat)
    requires Terminated(m, 0)
    ensures (val, end) == Parsed(m[..|m| - 1], base0)
  {
    hide Scan, Prefix, Sign;
    ghost var s := m[..|m| - 1];
    var i, neg, base := 0, false, base0;
    while m[i] == ' ' as int || m[i] == '\t' as int
      invariant i < |m|
      invariant i + Blanks(s[i..]) == Blanks(s)
      decreases |m| - i
    {
      assert s[i..][1..] == s[i + 1..];
      i := i + 1;
    }
    assert i == Blanks(s);
    i, neg := SkipSign(m, i);
    i, base := SkipPrefix(m, i, base);
    assert m[i..|m| - 1] == s[i..];
    val, end := ScanDigits(m, i, base);
    val := if neg then Wrapped(-val) else val;
  }

  method SkipSign(m: seq<int>, i0: nat) returns (i: nat, neg: bool)
    requires Terminated(m, 0) && i0 < |m|
    ensures i < |m| && i0 <= i && (i - i0, neg) == Sign(m[..|m| - 1][i0..])
  {
    i, neg := i0, false;
    if m[i] == '+' as int {
      i := i + 1;
    } else if m[i] == '-' as int {
      i, neg := i + 1, true;
    }
  }

  method SkipPrefix(m: seq<int>, i0: nat, base0: int) returns (i: nat, base: int)
    requires Terminated(m, 0) && i0 < |m|
    ensures i < |m| && i0 <= i && (i - i0, base) == Prefix(m[..|m| - 1][i0..], base0)
  {
    i, base := i0, base0;
    if (base == 0 || base == 16) && m[i] == '0' as int && m[i + 1] == 'x' as int {
      i, base := i + 2, 16;
    } else if base == 0 && m[i] == '0' as int {
      i, base := i + 1, 8;
    } else if base == 0 {
      base := 10;
    }
  }
}
