/** The kernel monitor's command line: splitting it into words in place, and looking up the command. */
module Monitor {
  import opened CStrings

  const MAXARGS: nat := 16

  const COMMANDS: seq<string> := ["help", "kerninfo", "hidden", "backtrace"]

  predicate IsBlank(c: char) { c == '\t' || c == '\r' || c == '\n' || c == ' ' }

  /** A word starts at `p`: no blank there, and nothing or a blank before it. */
  predicate StartsAt(s: string, p: nat)
    requires p < |s|
  {
    !IsBlank(s[p]) && (p == 0 || IsBlank(s[p - 1]))
  }

  /** The starts of words among the first `n` characters. */
  function Starts(s: string, n: nat): (ps: seq<nat>)
    requires n <= |s|
    ensures forall k | 0 <= k < |ps| :: ps[k] < n
  {
    if n == 0 then [] else Starts(s, n - 1) + if StartsAt(s, n - 1) then [n - 1] else []
  }

  /** The run of characters from `p` up to the next blank. */
  function WordAt(s: string, p: nat): string
    requires p <= |s|
    decreases |s| - p
  {
    if p == |s| || IsBlank(s[p]) then "" else [s[p]] + WordAt(s, p + 1)
  }

  function WordsAt(s: string, ps: seq<nat>): seq<string>
    requires forall k | 0 <= k < |ps| :: ps[k] <= |s|
  {
    if ps == [] then [] else WordsAt(s, ps[..|ps| - 1]) + [WordAt(s, ps[|ps| - 1])]
  }

  /** The words of a line: its maximal runs of characters other than blanks, in order. */
  function Words(s: string): seq<string> {
    WordsAt(s, Starts(s, |s|))
  }

  /** `m` holds the line `s` and its NUL. */
  ghost predicate Holds(m: seq<char>, s: string) {
    |s| < |m| && m[..|s|] == s && m[|s|] == '\0' && '\0' !in s
  }

  /** The line as it is once the first `i` characters have been gone over: blanks are NUL, all else is as it was. */
  ghost predicate Split(m: seq<char>, was: seq<char>, s: string, i: nat)
    requires |m| == |was| && |s| < |m| && i <= |s|
  {
    && (forall j | 0 <= j < i && IsBlank(s[j]) :: m[j] == '\0')
    && (forall j | 0 <= j < i && !IsBlank(s[j]) :: m[j] == was[j])
    && (forall j | i <= j < |m| :: m[j] == was[j])
  }

  ghost predicate OnlyBlanksChanged(m: seq<char>, was: seq<char>, s: string)
    requires |m| == |was|
  {
    forall j | 0 <= j < |m| :: m[j] == was[j] || (j < |s| && IsBlank(s[j]) && m[j] == '\0')
  }

  /** Where a word ends, or the line begins. */
  predicate AtGap(s: string, i: nat)
    requires i <= |s|
  {
    i == 0 || i == |s| || IsBlank(s[i])
  }

  /** Turns blanks into NULs up to the next word. */
  method Gobble(buf: array<char>, i0: nat, ghost s: string, ghost was: seq<char>) returns (i: nat)
    requires Holds(was, s) && |was| == buf.Length && i0 <= |s| && AtGap(s, i0) && Split(buf[..], was, s, i0)
    modifies buf
    ensures i0 <= i <= |s| && Split(buf[..], was, s, i) && Starts(s, i) == Starts(s, i0)
    ensures i < |s| ==> StartsAt(s, i)
    ensures buf[i] == '\0' <==> i == |s|
  {
    i := i0;
    while buf[i] != '\0' && IsBlank(buf[i])
      invariant i0 <= i <= |s| && Split(buf[..], was, s, i) && Starts(s, i) == Starts(s, i0)
      invariant i == i0 || IsBlank(s[i - 1])
      decreases |s| - i
    {
      buf[i] := '\0';
      i := i + 1;
    }
    assert i < |s| ==> s[i] in s;
  }

  /** Scans to the end of a word. */
  method SkipWord(buf: array<char>, i0: nat, ghost s: string, ghost was: seq<char>) returns (i: nat)
    requires Holds(was, s) && |was| == buf.Length && i0 < |s| && StartsAt(s, i0) && Split(buf[..], was, s, i0)
    ensures i0 < i <= |s| && AtGap(s, i) && Split(buf[..], was, s, i) && Starts(s, i) == Starts(s, i0) + [i0]
  {
    i := i0;
    while buf[i] != '\0' && !IsBlank(buf[i])
      invariant i0 <= i <= |s| && Split(buf[..], was, s, i)
      invariant i0 < i ==> Starts(s, i) == Starts(s, i0) + [i0] && !IsBlank(s[i - 1])
      decreases |s| - i
    {
      i := i + 1;
    }
    assert i < |s| ==> s[i] in s;
  }

  lemma {:induction false} StartsGrow(s: string, n: nat, m: nat)
    requires n <= m <= |s|
    ensures |Starts(s, n)| <= |Starts(s, m)|
    decreases m
  {
    if n < m {
      StartsGrow(s, n, m - 1);
    }
  }

  /** Splits the line; `ok` says whether it has few enough words. */
  method Tokenize(buf: array<char>, ghost s: string) returns (ok: bool, argv: seq<nat>)
    requires Holds(buf[..], s)
    modifies buf
    ensures ok <==> |Starts(s, |s|)| < MAXARGS
    ensures ok ==> argv == Starts(s, |s|) && Split(buf[..], old(buf[..]), s, |s|)
    ensures OnlyBlanksChanged(buf[..], old(buf[..]), s)
  {
    ghost var was := buf[..];
    var i := 0;
    argv := [];
    while true
      invariant i <= |s| && AtGap(s, i) && Split(buf[..], was, s, i)
      invariant argv == Starts(s, i) && |argv| < MAXARGS
      decreases |s| - i
    {
      i := Gobble(buf, i, s, was);
      if buf[i] == '\0' {
        return true, argv;
      }
      if |argv| == MAXARGS - 1 {
        StartsGrow(s, i + 1, |s|);
        return false, argv;
      }
      argv := argv + [i];
      i := SkipWord(buf, i, s, was);
    }
  }

  /** After splitting, the strings that `argv` points to are the words. */
  lemma {:induction false} StringIsWord(m: seq<char>, was: seq<char>, s: string, p: nat)
    requires Holds(was, s) && |m| == |was| && Split(m, was, s, |s|) && p <= |s|
    ensures CString(m, p) == WordAt(s, p)
    decreases |s| - p
  {
    if p < |s| {
      assert s[p] in s && was[p] == s[p];
      StringIsWord(m, was, s, p + 1);
    }
  }

  /** What becomes of a command line. */
  datatype Outcome = Nothing | TooMany | Run(command: nat, args: seq<string>) | Unknown(name: string)

  /** The first command of that name among those from `i` on. */
  function Find(name: string, i: nat): (k: nat)
    requires i <= |COMMANDS|
    ensures i <= k <= |COMMANDS|
    decreases |COMMANDS| - i
  {
    if i == |COMMANDS| || COMMANDS[i] == name then i else Find(name, i + 1)
  }

  function Meaning(s: string): Outcome {
    var words := Words(s);
    if |words| >= MAXARGS then TooMany
    else if words == [] then Nothing
    else if Find(words[0], 0) < |COMMANDS| then Run(Find(words[0], 0), words)
    else Unknown(words[0])
  }

  method Strings(buf: array<char>, argv: seq<nat>, ghost was: seq<char>, ghost s: string) returns (args: seq<string>)
    requires Holds(was, s) && |was| == buf.Length && Split(buf[..], was, s, |s|)
    requires forall k | 0 <= k < |argv| :: argv[k] <= |s|
    ensures args == WordsAt(s, argv)
  {
    args := [];
    var k := 0;
    while k < |argv|
      invariant 0 <= k <= |argv| && args == WordsAt(s, argv[..k])
    {
      StringIsWord(buf[..], was, s, argv[k]);
      assert argv[..k + 1][..k] == argv[..k];
      args := args + [CString(buf[..], argv[k])];
      k := k + 1;
    }
    assert argv[..k] == argv;
  }

  lemma {:induction false} WordCount(s: string, ps: seq<nat>)
    requires forall k | 0 <= k < |ps| :: ps[k] <= |s|
    ensures |WordsAt(s, ps)| == |ps|
  {
    if ps != [] {
      WordCount(s, ps[..|ps| - 1]);
    }
  }

  /** `runcmd`, except for what the commands themselves do; `args` is what the called one gets. */
  method Runcmd(buf: array<char>, ghost s: string) returns (outcome: Outcome)
    requires Holds(buf[..], s)
    modifies buf
    ensures outcome == Meaning(s)
    ensures OnlyBlanksChanged(buf[..], old(buf[..]), s)
  {
    hide Starts, Split, Holds, WordsAt, OnlyBlanksChanged;
    WordCount(s, Starts(s, |s|));
    var ok, argv := Tokenize(buf, s);
    if !ok {
      return TooMany;
    }
    var args := Strings(buf, argv, old(buf[..]), s);
    if |args| == 0 {
      return Nothing;
    }
    var i := 0;
    while i < |COMMANDS|
      invariant 0 <= i <= |COMMANDS| && Find(args[0], i) == Find(args[0], 0)
    {
      if args[0] == COMMANDS[i] {
        return Run(i, args);
      }
      i := i + 1;
    }
    return Unknown(args[0]);
  }
}
