/** Command lines as one types them, and the words and commands the monitor makes of them. */
module CommandLine {
  import opened Monitor

  /** A run of spaces, tabs and line ends. */
  predicate IsGap(g: string) {
    forall i | 0 <= i < |g| :: g[i] == ' ' || g[i] == '\t' || g[i] == '\r' || g[i] == '\n'
  }

  predicate IsWord(w: string) {
    w != "" && forall i | 0 <= i < |w| :: w[i] != ' ' && w[i] != '\t' && w[i] != '\r' && w[i] != '\n'
  }

  /** A word and the gap after it. */
  datatype Item = Item(word: string, gap: string)

  /** Between two words there is a gap. */
  predicate Typed(items: seq<Item>) {
    && (forall k | 0 <= k < |items| :: IsWord(items[k].word) && IsGap(items[k].gap))
    && (forall k | 0 <= k < |items| - 1 :: items[k].gap != "")
  }

  function Line(lead: string, items: seq<Item>): string {
    if items == [] then lead
    else Line(lead, items[..|items| - 1]) + items[|items| - 1].word + items[|items| - 1].gap
  }

  function WordsOf(items: seq<Item>): (ws: seq<string>)
    ensures |ws| == |items|
  {
    seq(|items|, k requires 0 <= k < |items| => items[k].word)
  }

  /** Nothing, or a blank at the end. */
  predicate Open(s: string) { s == "" || IsBlank(s[|s| - 1]) }

  lemma {:induction false} StartsPrefix(s: string, t: string, n: nat)
    requires n <= |s|
    ensures Starts(s + t, n) == Starts(s, n)
  {
    if 0 < n {
      StartsPrefix(s, t, n - 1);
    }
  }

  /** Blanks start no word. */
  lemma {:induction false} StartsGap(s: string, g: string)
    requires IsGap(g)
    ensures Starts(s + g, |s + g|) == Starts(s, |s|)
    decreases |g|
  {
    if g == "" {
      assert s + g == s;
    } else {
      var h := g[..|g| - 1];
      StartsGap(s, h);
      assert s + g == (s + h) + [g[|g| - 1]];
      StartsPrefix(s + h, [g[|g| - 1]], |s + h|);
    }
  }

  /** A word starts where it begins and nowhere else. */
  lemma {:induction false} StartsWord(s: string, w: string)
    requires Open(s) && IsWord(w)
    ensures Starts(s + w, |s + w|) == Starts(s, |s|) + [|s|]
    decreases |w|
  {
    var v, c := w[..|w| - 1], w[|w| - 1];
    assert s + w == (s + v) + [c];
    StartsPrefix(s + v, [c], |s + v|);
    if v == "" {
      assert s + v == s;
    } else {
      StartsWord(s, v);
      assert (s + w)[|s + w| - 2] == v[|v| - 1];
    }
  }

  lemma {:induction false} WordAtPrefix(s: string, t: string, p: nat)
    requires p < |s| && IsBlank(s[|s| - 1])
    ensures WordAt(s + t, p) == WordAt(s, p)
    decreases |s| - p
  {
    if !IsBlank(s[p]) {
      WordAtPrefix(s, t, p + 1);
    }
  }

  lemma {:induction false} WordAtNew(s: string, w: string, t: string, p: nat)
    requires p <= |w| && (forall i | 0 <= i < |w| :: !IsBlank(w[i])) && (t == "" || IsBlank(t[0]))
    ensures WordAt(s + w + t, |s| + p) == w[p..]
    decreases |w| - p
  {
    if p < |w| {
      assert (s + w + t)[|s| + p] == w[p];
      WordAtNew(s, w, t, p + 1);
    }
  }

  lemma {:induction false} WordsPrefix(s: string, t: string, ps: seq<nat>)
    requires (forall k | 0 <= k < |ps| :: ps[k] < |s|) && (ps != [] ==> s != "" && IsBlank(s[|s| - 1]))
    ensures WordsAt(s + t, ps) == WordsAt(s, ps)
    decreases |ps|
  {
    hide WordAt;
    if ps != [] {
      WordsPrefix(s, t, ps[..|ps| - 1]);
      WordAtPrefix(s, t, ps[|ps| - 1]);
    }
  }

  lemma LineOpen(lead: string, items: seq<Item>)
    requires IsGap(lead) && Typed(items) && (items != [] ==> items[|items| - 1].gap != "")
    ensures Open(Line(lead, items))
  {
  }

  lemma ItemWords(s: string, w: string, g: string)
    requires Open(s) && IsWord(w) && IsGap(g)
    ensures Words(s + w + g) == Words(s) + [w]
  {
    hide WordAt, WordsAt, Starts;
    var all, ps := s + w + g, Starts(s, |s|);
    StartsWord(s, w);
    StartsGap(s + w, g);
    assert s + (w + g) == all;
    WordsSnoc(all, ps, |s|);
    WordsBefore(s, w + g);
    WordAtNew(s, w, g, 0);
    assert w[0..] == w;
  }

  lemma WordsSnoc(s: string, ps: seq<nat>, p: nat)
    requires p <= |s| && forall k | 0 <= k < |ps| :: ps[k] <= |s|
    ensures WordsAt(s, ps + [p]) == WordsAt(s, ps) + [WordAt(s, p)]
  {
    hide WordAt;
    assert (ps + [p])[..|ps|] == ps;
  }

  lemma WordsBefore(s: string, t: string)
    requires Open(s)
    ensures WordsAt(s + t, Starts(s, |s|)) == WordsAt(s, Starts(s, |s|))
  {
    hide WordAt, WordsAt;
    WordsPrefix(s, t, Starts(s, |s|));
  }

  /** The words of a line are the words typed, in order, whatever the gaps between them. */
  lemma {:induction false} WordsTyped(lead: string, items: seq<Item>)
    requires IsGap(lead) && Typed(items)
    ensures Words(Line(lead, items)) == WordsOf(items)
    decreases |items|
  {
    if items == [] {
      StartsGap("", lead);
      assert "" + lead == lead;
    } else {
      var before, last := items[..|items| - 1], items[|items| - 1];
      assert items[|items| - 1] in items;
      WordsTyped(lead, before);
      LineOpen(lead, before);
      ItemWords(Line(lead, before), last.word, last.gap);
      assert WordsOf(items) == WordsOf(before) + [last.word];
    }
  }

  /** The place of each command's name in the table is found, and no other name. */
  lemma CommandFound(name: string, k: nat)
    requires k < |COMMANDS|
    ensures Find(name, 0) == k <==> name == COMMANDS[k]
    ensures Find(name, 0) == |COMMANDS| <==>
            name != "help" && name != "kerninfo" && name != "hidden" && name != "backtrace"
  {
    assert Find(name, 4) == 4;
    assert Find(name, 3) == if name == "backtrace" then 3 else 4;
    assert Find(name, 2) == if name == "hidden" then 2 else Find(name, 3);
    assert Find(name, 1) == if name == "kerninfo" then 1 else Find(name, 2);
    assert Find(name, 0) == if name == "help" then 0 else Find(name, 1);
    assert "help" != "kerninfo" && "help" != "hidden" && "help" != "backtrace";
    assert "kerninfo" != "hidden" && "kerninfo" != "backtrace" && "hidden" != "backtrace";
  }

  /**
   * What becomes of a line as it was typed: up to 15 words run the command that the first one names, with all
   * of them; no words do nothing; more, or an unknown name, are refused.
   */
  lemma LineMeans(lead: string, items: seq<Item>)
    requires IsGap(lead) && Typed(items)
    ensures var ws := WordsOf(items);
            var outcome := Meaning(Line(lead, items));
            && (15 < |ws| ==> outcome == TooMany)
            && (ws == [] ==> outcome == Nothing)
            && (0 < |ws| <= 15 ==>
                  && (forall k | 0 <= k < |COMMANDS| && ws[0] == COMMANDS[k] :: outcome == Run(k, ws))
                  && (ws[0] !in COMMANDS ==> outcome == Unknown(ws[0])))
  {
    hide Words, Find, Line;
    WordsTyped(lead, items);
    var ws := WordsOf(items);
    if 0 < |ws| {
      forall k | 0 <= k < |COMMANDS|
        ensures Find(ws[0], 0) == k <==> ws[0] == COMMANDS[k]
      {
        CommandFound(ws[0], k);
      }
      CommandFound(ws[0], 0);
    }
  }
}
