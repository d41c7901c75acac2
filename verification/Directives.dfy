/** What the modifiers of a directive come to, read off its characters. */
module Directives {
  import opened CStrings
  import opened Int32
  import opened Printfmt

  /** How often `c` occurs in fmt[i..j). */
  function Occurrences(fmt: string, c: char, i: nat, j: nat): nat
    requires i <= j <= |fmt|
    decreases j - i
  {
    if i == j then 0 else (if fmt[i] == c then 1 else 0) + Occurrences(fmt, c, i + 1, j)
  }

  /** The character at `k`, from `i` on, belongs to a number: a digit, and a zero only after another digit of it. */
  predicate InNumber(fmt: string, i: nat, k: nat)
    requires i <= k < |fmt|
    decreases k - i
  {
    IsDigit(fmt[k]) && (fmt[k] != '0' || (i < k && InNumber(fmt, i, k - 1)))
  }

  /** The character at `k` is a padding flag. */
  predicate PadFlag(fmt: string, i: nat, k: nat)
    requires i <= k < |fmt|
  {
    fmt[k] == '-' || (fmt[k] == '0' && !InNumber(fmt, i, k))
  }

  /** The last padding flag in fmt[i..j), or -1. */
  function LastPadFlag(fmt: string, i: nat, j: nat): (k: int)
    requires i <= j <= |fmt|
    ensures k == -1 || (i <= k < j && PadFlag(fmt, i, k))
    decreases j - i
  {
    if i == j then -1 else if PadFlag(fmt, i, j - 1) then j - 1 else LastPadFlag(fmt, i, j - 1)
  }

  /** Whether a number is under way does not depend on what is before a place where none is. */
  lemma {:induction false} NumberFrom(fmt: string, i: nat, j: nat, k: nat)
    requires i < j <= k < |fmt| && (!InNumber(fmt, i, j - 1) || !IsDigit(fmt[j]))
    ensures InNumber(fmt, i, k) <==> InNumber(fmt, j, k)
    decreases k
  {
    if j < k {
      NumberFrom(fmt, i, j, k - 1);
    }
  }

  /** The last flag from `i` on is the last one from `j` on, or else the last before that. */
  lemma {:induction false} FlagFrom(fmt: string, i: nat, j: nat, k: nat)
    requires i < j <= k <= |fmt| && (!InNumber(fmt, i, j - 1) || (j < |fmt| && !IsDigit(fmt[j])))
    ensures var last := LastPadFlag(fmt, j, k);
            LastPadFlag(fmt, i, k) == if 0 <= last then last else LastPadFlag(fmt, i, j)
    decreases k
  {
    if j < k {
      NumberFrom(fmt, i, j, k - 1);
      FlagFrom(fmt, i, j, k - 1);
    }
  }

  /** A run of digits after the first, other than zero, holds no flag. */
  lemma {:induction false} NoFlagInRun(fmt: string, i: nat, k: nat)
    requires Terminated(fmt, '\0') && i < |fmt| && IsDigit(fmt[i]) && fmt[i] != '0' && i < k <= DigitsEnd(fmt, i + 1)
    ensures InNumber(fmt, i, k - 1) && LastPadFlag(fmt, i, k) == -1
    decreases k
  {
    if i + 1 < k {
      DigitsAll(fmt, i + 1, k - 1);
      NoFlagInRun(fmt, i, k - 1);
    }
  }

  lemma {:induction false} OnlyDigitsInRun(fmt: string, c: char, i: nat, k: nat)
    requires Terminated(fmt, '\0') && i < |fmt| && !IsDigit(c) && DigitsEnd(fmt, i) <= k <= |fmt|
    ensures Occurrences(fmt, c, i, k) == Occurrences(fmt, c, DigitsEnd(fmt, i), k)
    decreases |fmt| - i
  {
    if IsDigit(fmt[i]) {
      OnlyDigitsInRun(fmt, c, i + 1, k);
    }
  }

  /** The flags, the length and the arguments left, in terms of the characters between '%' and conversion. */
  ghost predicate Means(fmt: string, i: nat, f: Flags, args: seq<Arg>, d: Directive)
    requires d.Directive? && i <= d.at <= |fmt|
  {
    var stars := Occurrences(fmt, '*', i, d.at);
    var flag := LastPadFlag(fmt, i, d.at);
    && d.flags.padc == (if flag < 0 then f.padc else fmt[flag])
    && d.flags.lflag == f.lflag + Occurrences(fmt, 'l', i, d.at)
    && d.flags.alt == (f.alt || 0 < Occurrences(fmt, '#', i, d.at))
    && stars <= |args| && d.rest == args[stars..]
  }

  lemma FirstFlag(fmt: string, i: nat)
    requires i < |fmt| && (!IsDigit(fmt[i]) || fmt[i] == '0')
    ensures !InNumber(fmt, i, i)
    ensures LastPadFlag(fmt, i, i + 1) == if fmt[i] == '-' || fmt[i] == '0' then i else -1
  {
    assert LastPadFlag(fmt, i, i) == -1;
  }

  lemma FirstOccurs(fmt: string, c: char, i: nat, j: nat)
    requires i < j <= |fmt|
    ensures Occurrences(fmt, c, i, j) == (if fmt[i] == c then 1 else 0) + Occurrences(fmt, c, i + 1, j)
  {
  }

  /** One modifier that is a single character, and those after it. */
  lemma OneMore(fmt: string, i: nat, f: Flags, g: Flags, args: seq<Arg>, more: seq<Arg>, d: Directive)
    requires d.Directive? && i < d.at <= |fmt| && (!IsDigit(fmt[i]) || fmt[i] == '0')
    requires Means(fmt, i + 1, g, more, d)
    requires g.padc == if fmt[i] == '-' || fmt[i] == '0' then fmt[i] else f.padc
    requires g.lflag == f.lflag + if fmt[i] == 'l' then 1 else 0
    requires g.alt == (f.alt || fmt[i] == '#')
    requires if fmt[i] == '*' then args != [] && more == args[1..] else more == args
    ensures Means(fmt, i, f, args, d)
  {
    hide PadFlag, InNumber, LastPadFlag, Occurrences;
    FirstFlag(fmt, i);
    FlagFrom(fmt, i, i + 1, d.at);
    FirstOccurs(fmt, '*', i, d.at);
    FirstOccurs(fmt, 'l', i, d.at);
    FirstOccurs(fmt, '#', i, d.at);
    if fmt[i] == '*' {
      var stars := Occurrences(fmt, '*', i + 1, d.at);
      assert args[1..][stars..] == args[stars + 1..];
    }
  }

  lemma NumberMore(fmt: string, i: nat, j: nat, f: Flags, g: Flags, args: seq<Arg>, d: Directive)
    requires Terminated(fmt, '\0') && i < |fmt| && IsDigit(fmt[i]) && fmt[i] != '0' && j == DigitsEnd(fmt, i + 1)
    requires d.Directive? && j <= d.at <= |fmt| && Means(fmt, j, g, args, d)
    requires g.padc == f.padc && g.lflag == f.lflag && g.alt == f.alt
    ensures Means(fmt, i, f, args, d)
  {
    RunStops(fmt, i + 1);
    NoFlagInRun(fmt, i, j);
    FlagFrom(fmt, i, j, d.at);
    OnlyDigitsInRun(fmt, '*', i + 1, d.at);
    OnlyDigitsInRun(fmt, 'l', i + 1, d.at);
    OnlyDigitsInRun(fmt, '#', i + 1, d.at);
  }

  /**
   * What the interpreter collects on its way to the conversion character: the last padding
   * flag, the number of 'l', whether there is a '#', and one argument used for each '*'.
   */
  lemma {:induction false} ModifiersMean(fmt: string, i: nat, f: Flags, args: seq<Arg>)
    requires Terminated(fmt, '\0') && i < |fmt|
    ensures var d := Modifiers(fmt, i, f, args); d.Directive? ==> Means(fmt, i, f, args, d)
    decreases |fmt| - i
  {
    hide Means;
    var d := Modifiers(fmt, i, f, args);
    var c := fmt[i];
    if d.Directive? {
      if !IsModifier(c) {
        NothingMeans(fmt, i, f, args);
      } else if IsDigit(c) && c != '0' {
        var j, g := DigitsEnd(fmt, i + 1), WithNumber(f, NumberAt(fmt, i, 0));
        ModifiersMean(fmt, j, g, args);
        NumberMore(fmt, i, j, f, g, args, d);
      } else {
        var (g, more) := AfterOne(c, f, args);
        ModifiersMean(fmt, i + 1, g, more);
        OneMore(fmt, i, f, g, args, more, d);
      }
    }
  }

  lemma NothingMeans(fmt: string, i: nat, f: Flags, args: seq<Arg>)
    requires i <= |fmt|
    ensures Means(fmt, i, f, args, Directive(i, f, args))
  {
  }

  /** One modifier of a single character. */
  function AfterOne(c: char, f: Flags, args: seq<Arg>): (Flags, seq<Arg>)
    requires c == '*' ==> args != [] && args[0].Word?
  {
    if c == '-' || c == '0' then (f.(padc := c), args)
    else if c == '*' then (WithNumber(f, Signed(args[0].bits, RANGE32)), args[1..])
    else if c == '.' then (if f.width < 0 then f.(width := 0) else f, args)
    else if c == '#' then (f.(alt := true), args)
    else (f.(lflag := f.lflag + 1), args)
  }
}
