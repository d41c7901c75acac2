/** What rendition parameters do to the two colours, in numbers. */
module Colours {
  import opened Int32
  import opened Terminal
  import opened Escape
  import opened Rendition

  function Fg(attr: Cell): int { Foreground(attr) as int }

  function Bg(attr: Cell): int { Background(attr) as int }

  /** The foreground that a parameter sets, whatever it was before, or -1. */
  function SetsFg(p: int): int {
    if p == 0 then 7
    else if 30 <= p <= 37 then p - 30
    else if 90 <= p <= 97 then p - 82
    else -1
  }

  /** The background that a parameter sets, or -1. */
  function SetsBg(p: int): int {
    if p == 0 then 0
    else if 40 <= p <= 47 then p - 40
    else if 100 <= p <= 107 then p - 92
    else -1
  }

  lemma NibbleIs(n: int)
    requires 0 <= n < 16
    ensures Nibble(n) as int == n
  {
  }

  lemma ColoursSmall(attr: Cell)
    ensures Foreground(attr) < 16 && Background(attr) < 16
    ensures 0 <= Fg(attr) < 16 && 0 <= Bg(attr) < 16
  {
    assert Foreground(attr) < 16 && Background(attr) < 16;
  }

  lemma SetFg(attr: Cell, n: int)
    requires AttrOk(attr) && 0 <= n < 16
    ensures var a := SetForeground(attr, n); AttrOk(a) && Fg(a) == n && Bg(a) == Bg(attr)
  {
    hide SetForeground, Foreground, Background, AttrOk, Nibble;
    ForegroundSet(attr, n);
    NibbleIs(n);
  }

  lemma SetBg(attr: Cell, n: int)
    requires AttrOk(attr) && 0 <= n < 16
    ensures var a := SetBackground(attr, n); AttrOk(a) && Bg(a) == n && Fg(a) == Fg(attr)
  {
    hide SetBackground, Foreground, Background, AttrOk, Nibble;
    BackgroundSet(attr, n);
    NibbleIs(n);
  }

  lemma Plain()
    ensures AttrOk(0x0700) && Fg(0x0700) == 7 && Bg(0x0700) == 0
  {
    assert Foreground(0x0700) == 7 && Background(0x0700) == 0;
  }

  lemma DarkForeground(attr: Cell)
    ensures Foreground(attr) as int == Fg(attr) && 0 <= Fg(attr) < 16
    ensures Foreground(attr) < 8 <==> Fg(attr) < 8
  {
    ColoursSmall(attr);
  }

  /**
   * One parameter: 0 sets both colours, 1 makes a dark foreground bright, 30 to 37 and 90 to 97 set the foreground,
   * 40 to 47 and 100 to 107 the background, each leaving the other colour; any other number changes nothing.
   */
  lemma OneParameter(attr: Cell, p: int)
    requires AttrOk(attr)
    ensures var a := WithParam(attr, p);
            && AttrOk(a)
            && Fg(a) == (if 0 <= SetsFg(p) then SetsFg(p)
                         else if p == 1 && Fg(attr) < 8 then Fg(attr) + 8 else Fg(attr))
            && Bg(a) == (if 0 <= SetsBg(p) then SetsBg(p) else Bg(attr))
            && (p != 1 && SetsFg(p) < 0 && SetsBg(p) < 0 ==> a == attr)
  {
    hide SetForeground, SetBackground, Foreground, Background, AttrOk, Fg, Bg;
    Plain();
    if p == 1 {
      DarkForeground(attr);
      if Foreground(attr) < 8 {
        SetFg(attr, Foreground(attr) as int + 8);
      }
    } else if 30 <= p <= 37 {
      SetFg(attr, p - 30);
    } else if 40 <= p <= 47 {
      SetBg(attr, p - 40);
    } else if 90 <= p <= 97 {
      SetFg(attr, p - 82);
    } else if 100 <= p <= 107 {
      SetBg(attr, p - 92);
    }
  }

  /** The last parameter that sets the foreground, or -1. */
  function LastFg(ps: seq<int>): (i: int)
    ensures -1 <= i < |ps| && (0 <= i ==> 0 <= SetsFg(ps[i]))
    ensures forall j | i < j < |ps| :: SetsFg(ps[j]) < 0
  {
    if ps == [] then -1 else if 0 <= SetsFg(ps[|ps| - 1]) then |ps| - 1 else LastFg(ps[..|ps| - 1])
  }

  /** The last parameter that sets the background, or -1. */
  function LastBg(ps: seq<int>): (i: int)
    ensures -1 <= i < |ps| && (0 <= i ==> 0 <= SetsBg(ps[i]))
    ensures forall j | i < j < |ps| :: SetsBg(ps[j]) < 0
  {
    if ps == [] then -1 else if 0 <= SetsBg(ps[|ps| - 1]) then |ps| - 1 else LastBg(ps[..|ps| - 1])
  }

  /** The last parameter that is 1, or -1. */
  function LastOne(ps: seq<int>): (i: int)
    ensures -1 <= i < |ps| && (0 <= i ==> ps[i] == 1) && forall j | i < j < |ps| :: ps[j] != 1
  {
    if ps == [] then -1 else if ps[|ps| - 1] == 1 then |ps| - 1 else LastOne(ps[..|ps| - 1])
  }

  /** The foreground that was set last, or was there before, made bright if a 1 follows and it is dark. */
  function FgAfter(fg: int, ps: seq<int>): int {
    var i := LastFg(ps);
    var base := if i < 0 then fg else SetsFg(ps[i]);
    if base < 8 && i < LastOne(ps) then base + 8 else base
  }

  function BgAfter(bg: int, ps: seq<int>): int {
    var i := LastBg(ps);
    if i < 0 then bg else SetsBg(ps[i])
  }

  lemma {:induction false} WithParamsSnoc(attr: Cell, ps: seq<int>, p: int)
    ensures WithParams(attr, ps + [p]) == WithParam(WithParams(attr, ps), p)
    decreases |ps|
  {
    hide WithParam;
    if ps == [] {
      assert [p][1..] == [];
    } else {
      assert (ps + [p])[1..] == ps[1..] + [p];
      WithParamsSnoc(WithParam(attr, ps[0]), ps[1..], p);
    }
  }

  lemma FgSnoc(c: int, ps: seq<int>, p: int)
    requires 0 <= c
    ensures FgAfter(c, ps + [p]) ==
            if 0 <= SetsFg(p) then SetsFg(p)
            else if p == 1 && FgAfter(c, ps) < 8 then FgAfter(c, ps) + 8 else FgAfter(c, ps)
  {
    assert SetsFg(1) < 0;
    hide SetsFg;
    var qs := ps + [p];
    assert qs[..|qs| - 1] == ps;
  }

  lemma BgSnoc(c: int, ps: seq<int>, p: int)
    ensures BgAfter(c, ps + [p]) == if 0 <= SetsBg(p) then SetsBg(p) else BgAfter(c, ps)
  {
    hide SetsBg;
    var qs := ps + [p];
    assert qs[..|qs| - 1] == ps;
  }

  /** After any parameters the two colours are those set last. */
  lemma {:induction false} ColoursAfter(attr: Cell, ps: seq<int>)
    requires AttrOk(attr)
    ensures Fg(WithParams(attr, ps)) == FgAfter(Fg(attr), ps)
    ensures Bg(WithParams(attr, ps)) == BgAfter(Bg(attr), ps)
    decreases |ps|
  {
    hide AttrOk, Fg, Bg, FgAfter, BgAfter, SetsFg, SetsBg, WithParam;
    if ps == [] {
      NothingAfter(Fg(attr), Bg(attr));
    } else {
      var before, p := ps[..|ps| - 1], ps[|ps| - 1];
      assert ps == before + [p];
      ColoursAfter(attr, before);
      WithParamsSnoc(attr, before, p);
      OneParameter(WithParams(attr, before), p);
      ColoursSmall(attr);
      FgSnoc(Fg(attr), before, p);
      BgSnoc(Bg(attr), before, p);
    }
  }

  lemma NothingAfter(fg: int, bg: int)
    ensures FgAfter(fg, []) == fg && BgAfter(bg, []) == bg
  {
  }

  /** The first parameters of a sequence, as many as are looked at; none at all counts as a 0. */
  function Heeded(ps: seq<Param>): seq<int> {
    if ps == [] then [0] else if |ps| <= 4 then Values(ps) else Values(ps)[..4]
  }

  /** A rendition sequence leaves the colours that the first four parameters set last, and no other trace. */
  lemma SequenceColours(t: Term, ps: seq<Param>)
    requires t.Ok() && t.parser.esc == 0
    requires forall i | 0 <= i < |ps| && i < 4 :: Small(ps[i])
    ensures var u := Run(t, [ESC, BRACKET] + (Encoded(ps) + [LETTER_M]));
            var a := t.out.doc.attr;
            && Fg(u.out.doc.attr) == FgAfter(Fg(a), Heeded(ps))
            && Bg(u.out.doc.attr) == BgAfter(Bg(a), Heeded(ps))
            && u.out == t.out.(doc := t.out.doc.(attr := u.out.doc.attr)) && u.parser.esc == 0
  {
    hide Run, Fg, Bg, FgAfter, BgAfter, Small, Encoded, WithParams;
    RenditionRoundTrip(t, ps);
    ColoursAfter(t.out.doc.attr, Heeded(ps));
  }

  lemma {:induction false} WithParamsConcat(attr: Cell, a: seq<int>, b: seq<int>)
    ensures WithParams(attr, a + b) == WithParams(WithParams(attr, a), b)
    decreases |a|
  {
    hide WithParam;
    if a == [] {
      assert a + b == b;
    } else {
      assert (a + b)[1..] == a[1..] + b;
      WithParamsConcat(WithParam(attr, a[0]), a[1..], b);
    }
  }

  /** The parameters of all rendition sequences among the tokens, of each the first four. */
  function AllHeeded(ts: seq<Token>): seq<int> {
    if ts == [] then []
    else
      (if !ts[0].Rendering? then [] else if |ts[0].ps| <= 4 then ts[0].ps else ts[0].ps[..4]) + AllHeeded(ts[1..])
  }

  lemma {:induction false} TokensParams(attr: Cell, ts: seq<Token>)
    ensures TokensAttr(attr, ts) == WithParams(attr, AllHeeded(ts))
    decreases |ts|
  {
    hide WithParam;
    if ts != [] {
      if ts[0].Rendering? {
        WithParamsConcat(attr, Four(ts[0].ps), AllHeeded(ts[1..]));
        TokensParams(WithParams(attr, Four(ts[0].ps)), ts[1..]);
      } else {
        assert [] + AllHeeded(ts[1..]) == AllHeeded(ts[1..]);
        TokensParams(attr, ts[1..]);
      }
    }
  }

  /** After any byte stream the two colours are those that its rendition sequences set last. */
  lemma StreamColours(t: Term, cs: seq<Ch>)
    requires t.Ok() && t.parser.esc == 0
    ensures var a, b := t.out.doc.attr, Run(t, cs).out.doc.attr;
            Fg(b) == FgAfter(Fg(a), AllHeeded(Tokens(cs))) && Bg(b) == BgAfter(Bg(a), AllHeeded(Tokens(cs)))
  {
    hide Run, Tokens, Fg, Bg, FgAfter, BgAfter, WithParams, TokensAttr, AllHeeded;
    AttributeOfStream(t, cs);
    TokensParams(t.out.doc.attr, Tokens(cs));
    ColoursAfter(t.out.doc.attr, AllHeeded(Tokens(cs)));
  }
}
