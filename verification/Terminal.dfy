/**
 * What the console shows and sends: a document that only grows at its end, seen
 * through a window on its last 25 rows, and a parser for escape sequences.
 */
module Terminal {
  import opened Int32

  const CRT_COLS: nat := 80
  const CRT_SIZE: nat := 2000

  type Ch = bv32
  type Cell = bv16

  const ESC: Ch := 0x1b
  const SPACE: Ch := 0x20
  const TAB: Ch := 9
  const BRACKET: Ch := 0x5b
  const SEMICOLON: Ch := 0x3b
  const LETTER_M: Ch := 0x6d

  function Low(c: Ch): Ch { c & 0xff }

  /** A character without an attribute of its own takes the current one. */
  function WithAttr(attr: Cell, c: Ch): Ch {
    if c & 0xffff_ff00 == 0 then c | (attr as bv32) else c
  }

  /** What a store to the screen keeps of a character. */
  function ToCell(c: Ch): Cell { (c & 0xffff) as bv16 }

  /** The same place on the screen with the character rubbed out. */
  function Blanked(c: Ch): Cell { ToCell((c & 0xffff_ff00) | SPACE) }

  function BlankCell(attr: Cell): Cell { attr | 0x20 }

  function Fill(x: Cell, n: nat): seq<Cell> { seq(n, _ => x) }

  ghost predicate AttrOk(attr: Cell) { attr & 0xff == 0 }

  lemma LowKept(attr: Cell, c: Ch)
    requires AttrOk(attr)
    ensures Low(WithAttr(attr, c)) == Low(c)
  {
  }

  /** On the screen an ordinary character keeps its code and has the current attribute beside it. */
  lemma CellParts(attr: Cell, c: Ch)
    requires AttrOk(attr) && c < 256
    ensures var x := ToCell(WithAttr(attr, c)); x & 0xff == ToCell(c) && x & 0xff00 == attr
  {
  }

  /** All rows ever shown, the cursor counted from the first of them, and the current attribute. */
  datatype Doc = Doc(cells: seq<Cell>, cur: nat, attr: Cell) {
    /** Where the window starts. */
    function Top(): int { |cells| - CRT_SIZE }

    ghost predicate Ok() {
      0 <= Top() <= cur < |cells| && Top() % CRT_COLS == 0 && AttrOk(attr)
    }

    /** One more row at the end once the cursor has left the last. */
    function Scrolled(): Doc {
      if cur < |cells| then this else this.(cells := cells + Fill(BlankCell(attr), CRT_COLS))
    }

    /** What one character other than a tab does to the screen, before any scrolling. */
    function Written(c: Ch): Doc
      requires Ok()
    {
      if Low(c) == 8 then
        if cur == Top() then this
        else this.(cells := cells[cur - 1 := Blanked(WithAttr(attr, c))], cur := cur - 1)
      else if Low(c) == 10 then this.(cur := cur + CRT_COLS - cur % CRT_COLS)
      else if Low(c) == 13 then this.(cur := cur - cur % CRT_COLS)
      else this.(cells := cells[cur := ToCell(WithAttr(attr, c))], cur := cur + 1)
    }

    function Put(c: Ch): (d: Doc)
      requires Ok()
      ensures d.Ok()
    {
      Written(c).Scrolled()
    }

    function Display(c: Ch): (d: Doc)
      requires Ok()
      ensures d.Ok()
    {
      if Low(c) == TAB then Put(SPACE).Put(SPACE).Put(SPACE).Put(SPACE).Put(SPACE) else Put(c)
    }
  }

  /** The parser: state 0 idle, 1 after ESC, 2 within a sequence; the number being read, or -1; the numbers read. */
  datatype Parser = Parser(esc: int, param: int, params: seq<int>) {
    ghost predicate Ok() {
      0 <= esc <= 2 && Fits(param) && |params| <= 4 && forall i | 0 <= i < |params| :: 0 <= params[i]
    }
  }

  /** The document and all bytes sent to the serial and the parallel port. */
  datatype Output = Output(doc: Doc, serial: seq<Ch>, lpt: seq<Ch>) {
    /** What showing a character on the screen does; a tab also sends its spaces to the ports. */
    function Shown(c: Ch): (o: Output)
      requires doc.Ok()
      ensures o.doc.Ok()
    {
      var tail := if Low(c) == TAB then Spaces() else [];
      Output(doc.Display(c), serial + tail, lpt + tail)
    }

    function Print(c: Ch): (o: Output)
      requires doc.Ok()
      ensures o.doc.Ok()
    {
      this.(serial := serial + [Low(c)], lpt := lpt + [Low(c)]).Shown(c)
    }

    function Select(ps: seq<int>): (o: Output)
      ensures doc.Ok() ==> o.doc.Ok()
    {
      this.(doc := doc.(attr := WithParams(doc.attr, ps)))
    }
  }

  datatype Term = Term(out: Output, parser: Parser) {
    ghost predicate Ok() { out.doc.Ok() && parser.Ok() }
  }

  /** What one printed character sends to a port: its low byte, and five spaces after a tab. */
  function Sent(c: Ch): seq<Ch> {
    [Low(c)] + if Low(c) == TAB then Spaces() else []
  }

  function Spaces(): seq<Ch> { [SPACE, SPACE, SPACE, SPACE, SPACE] }

  lemma PrintSends(o: Output, c: Ch)
    requires o.doc.Ok()
    ensures var o' := o.Print(c); o'.serial == o.serial + Sent(c) && o'.lpt == o.lpt + Sent(c)
  {
  }

  predicate IsDigit(c: Ch) { 0x30 <= c <= 0x39 }

  function DigitValue(c: Ch): nat
    requires IsDigit(c)
  {
    (c - 0x30) as nat
  }

  /** The low four bits of a colour number, of whatever sign and size. */
  function Nibble(n: int): Cell { (n % 16) as bv16 }

  function SetForeground(attr: Cell, fg: int): Cell {
    ((((attr >> 8) & 0xff) & 0xf0) | Nibble(fg)) << 8
  }

  function SetBackground(attr: Cell, bg: int): Cell {
    ((((attr >> 8) & 0xff) & 0x0f) | (Nibble(bg) << 4)) << 8
  }

  /** The low three bits; the order of the colours stays as it is. */
  function AnsiToVgaBasic(ansi: int): int { ansi % 8 }

  function Foreground(attr: Cell): Cell { (attr >> 8) & 0x0f }

  function Background(attr: Cell): Cell { (attr >> 12) & 0x0f }

  /** One parameter of a "select graphic rendition" sequence. */
  function WithParam(attr: Cell, p: int): (a: Cell)
    ensures AttrOk(attr) ==> AttrOk(a)
  {
    if p == 0 then 0x0700
    else if p == 1 then
      if Foreground(attr) < 8 then SetForeground(attr, Foreground(attr) as int + 8) else attr
    else if 30 <= p <= 37 then SetForeground(attr, AnsiToVgaBasic(p - 30))
    else if 40 <= p <= 47 then SetBackground(attr, AnsiToVgaBasic(p - 40))
    else if 90 <= p <= 97 then SetForeground(attr, AnsiToVgaBasic(p - 90) + 8)
    else if 100 <= p <= 107 then SetBackground(attr, AnsiToVgaBasic(p - 100) + 8)
    else attr
  }

  function WithParams(attr: Cell, ps: seq<int>): (a: Cell)
    ensures AttrOk(attr) ==> AttrOk(a)
    decreases |ps|
  {
    if |ps| == 0 then attr else WithParams(WithParam(attr, ps[0]), ps[1..])
  }

  lemma NibbleSmall(n: int)
    ensures Nibble(n) < 16
  {
  }

  lemma ForegroundSet(attr: Cell, fg: int)
    requires AttrOk(attr)
    ensures var a := SetForeground(attr, fg);
            AttrOk(a) && Foreground(a) == Nibble(fg) && Background(a) == Background(attr)
  {
    NibbleSmall(fg);
    hide Nibble;
  }

  lemma BackgroundSet(attr: Cell, bg: int)
    requires AttrOk(attr)
    ensures var a := SetBackground(attr, bg);
            AttrOk(a) && Background(a) == Nibble(bg) && Foreground(a) == Foreground(attr)
  {
    NibbleSmall(bg);
    hide Nibble;
  }

  /** The number being read with one more digit, on 32 bits; a negative one starts again from 0. */
  function Extended(param: int, d: nat): (r: int)
    ensures Fits(r)
  {
    Wrapped((if param < 0 then 0 else param) * 10 + d)
  }

  /** The numbers read once the one in progress is added; no more than four are kept. */
  function Pushed(p: Parser): seq<int> {
    if |p.params| < 4 then p.params + [if p.param < 0 then 0 else p.param] else p.params
  }

  /** One character given to the console. */
  function Step(t: Term, c: Ch): (u: Term)
    requires t.Ok()
    ensures u.Ok()
  {
    var p := t.parser;
    if p.esc == 0 then
      if Low(c) == ESC then t.(parser := p.(esc := 1)) else t.(out := t.out.Print(c))
    else if p.esc == 1 then
      if Low(c) == BRACKET then t.(parser := Parser(2, -1, []))
      else Term(t.out.Print(ESC).Print(c), p.(esc := 0))
    else if IsDigit(Low(c)) then
      t.(parser := p.(param := Extended(p.param, DigitValue(Low(c)))))
    else if Low(c) == SEMICOLON then
      t.(parser := p.(params := Pushed(p), param := -1))
    else if Low(c) == LETTER_M then
      Term(t.out.Select(Pushed(p)), p.(params := Pushed(p), esc := 0))
    else t.(parser := p.(esc := 0))
  }

  function Run(t: Term, cs: seq<Ch>): (u: Term)
    requires t.Ok()
    ensures u.Ok()
    decreases |cs|
  {
    if cs == [] then t else Run(Step(t, cs[0]), cs[1..])
  }

  lemma SpaceShown(t: Term)
    requires t.Ok() && t.parser.esc == 0
    ensures Step(t, SPACE) ==
            t.(out := Output(t.out.doc.Put(SPACE), t.out.serial + [SPACE], t.out.lpt + [SPACE]))
  {
  }

  /** A tab on the screen is five spaces given to the console. */
  lemma TabIsSpaces(t: Term, c: Ch)
    requires t.Ok() && t.parser.esc == 0 && Low(c) == TAB
    ensures Step(Step(Step(Step(Step(t, SPACE), SPACE), SPACE), SPACE), SPACE) == t.(out := t.out.Shown(c))
  {
    hide Step, Doc.Put;
    SpaceShown(t);
    var t1 := Step(t, SPACE);
    SpaceShown(t1);
    var t2 := Step(t1, SPACE);
    SpaceShown(t2);
    var t3 := Step(t2, SPACE);
    SpaceShown(t3);
    var t4 := Step(t3, SPACE);
    SpaceShown(t4);
    var o := Step(t4, SPACE).out;
    assert o.serial == t.out.serial + Spaces() && o.lpt == t.out.lpt + Spaces();
  }

  /** An ordinary character changes the cursor's cell and no other that was there; the cursor moves on by one. */
  lemma PlainChanges(d: Doc, c: Ch)
    requires d.Ok() && Low(c) != 8 && Low(c) != 10 && Low(c) != 13
    ensures var e := d.Put(c);
            && e.cur == d.cur + 1 && e.attr == d.attr
            && e.cells[..|d.cells|] == d.cells[d.cur := ToCell(WithAttr(d.attr, c))]
            && |e.cells| == |d.cells| + if d.cur + 1 == |d.cells| then CRT_COLS else 0
  {
  }

  /** A newline leads to the start of the next row, a return to that of this row; no cell that was there changes. */
  lemma RowChanges(d: Doc, c: Ch)
    requires d.Ok() && (Low(c) == 10 || Low(c) == 13)
    ensures var e := d.Put(c);
            && e.cur % CRT_COLS == 0 && e.attr == d.attr && e.cells[..|d.cells|] == d.cells
            && (Low(c) == 10 ==> d.cur < e.cur <= d.cur + CRT_COLS)
            && (Low(c) == 13 ==> d.cur - CRT_COLS < e.cur <= d.cur && |e.cells| == |d.cells|)
  {
    RowStart(d.cur);
  }

  lemma BlankedParts(attr: Cell, c: Ch)
    requires AttrOk(attr) && c < 256
    ensures var x := Blanked(WithAttr(attr, c)); x & 0xff == 0x20 && x & 0xff00 == attr
  {
  }

  /**
   * A backspace leads back by one cell and leaves a blank in the current attribute there; at the top it does nothing.
   */
  lemma BackspaceChanges(d: Doc)
    requires d.Ok()
    ensures var e := d.Put(8);
            if d.cur == d.Top() then e == d
            else
              && e.cur == d.cur - 1 && e.attr == d.attr && |e.cells| == |d.cells|
              && e.cells[e.cur] & 0xff == 0x20 && e.cells[e.cur] & 0xff00 == d.attr
              && forall k | 0 <= k < |d.cells| && k != e.cur :: e.cells[k] == d.cells[k]
  {
    BlankedParts(d.attr, 8);
    assert Low(8) == 8;
    hide Blanked, WithAttr;
  }

  lemma BlankParts(attr: Cell)
    requires AttrOk(attr)
    ensures BlankCell(attr) & 0xff == 0x20 && BlankCell(attr) & 0xff00 == attr
  {
  }

  lemma WrittenKeeps(d: Doc, c: Ch)
    requires d.Ok()
    ensures |d.Written(c).cells| == |d.cells| && d.Written(c).attr == d.attr
  {
    hide ToCell, WithAttr, Blanked, Low, AttrOk;
  }

  /** The row that comes in at the bottom, if any, is blank in the current attribute. */
  lemma NewRowBlank(d: Doc, c: Ch, k: nat)
    requires d.Ok() && |d.cells| <= k < |d.Put(c).cells|
    ensures var x := d.Put(c).cells[k]; x & 0xff == 0x20 && x & 0xff00 == d.attr
  {
    hide BlankCell, Doc.Written, Low;
    WrittenKeeps(d, c);
    BlankParts(d.attr);
  }

  lemma RowStart(n: nat)
    ensures (n - n % CRT_COLS) % CRT_COLS == 0 && (n + CRT_COLS - n % CRT_COLS) % CRT_COLS == 0
  {
  }

  /** Rows above the window of `d` are as they were. */
  ghost predicate Frozen(d: Doc, e: Doc)
    requires d.Ok()
  {
    |d.cells| <= |e.cells| && e.cells[..d.Top()] == d.cells[..d.Top()]
  }

  lemma PutFreezes(d: Doc, c: Ch)
    requires d.Ok()
    ensures Frozen(d, d.Put(c))
  {
  }

  lemma FrozenTrans(d: Doc, e: Doc, f: Doc)
    requires d.Ok() && e.Ok() && Frozen(d, e) && Frozen(e, f)
    ensures Frozen(d, f)
  {
    assert f.cells[..d.Top()] == f.cells[..e.Top()][..d.Top()];
    assert e.cells[..d.Top()] == e.cells[..e.Top()][..d.Top()];
  }

  lemma DisplayFreezes(d: Doc, c: Ch)
    requires d.Ok()
    ensures Frozen(d, d.Display(c))
  {
    if Low(c) == TAB {
      hide Doc.Put;
      var d1 := d.Put(SPACE);
      var d2 := d1.Put(SPACE);
      var d3 := d2.Put(SPACE);
      var d4 := d3.Put(SPACE);
      PutFreezes(d, SPACE);
      PutFreezes(d1, SPACE);
      PutFreezes(d2, SPACE);
      PutFreezes(d3, SPACE);
      PutFreezes(d4, SPACE);
      FrozenTrans(d, d1, d2);
      FrozenTrans(d, d2, d3);
      FrozenTrans(d, d3, d4);
      FrozenTrans(d, d4, d.Display(c));
    } else {
      PutFreezes(d, c);
    }
  }

  lemma StepFreezes(t: Term, c: Ch)
    requires t.Ok()
    ensures Frozen(t.out.doc, Step(t, c).out.doc)
  {
    hide Doc.Display;
    var d := t.out.doc;
    if t.parser.esc == 1 {
      var d' := d.Display(ESC);
      DisplayFreezes(d, ESC);
      DisplayFreezes(d', c);
      FrozenTrans(d, d', d'.Display(c));
    } else {
      DisplayFreezes(d, c);
    }
  }

  /** Over any run of output, what has scrolled off the screen never changes. */
  lemma {:induction false} HistoryKept(t: Term, cs: seq<Ch>)
    requires t.Ok()
    ensures Frozen(t.out.doc, Run(t, cs).out.doc)
    decreases |cs|
  {
    if cs != [] {
      var u := Step(t, cs[0]);
      StepFreezes(t, cs[0]);
      HistoryKept(u, cs[1..]);
      FrozenTrans(t.out.doc, u.out.doc, Run(t, cs).out.doc);
    }
  }

  lemma {:induction false} RunConcat(t: Term, a: seq<Ch>, b: seq<Ch>)
    requires t.Ok()
    ensures Run(t, a + b) == Run(Run(t, a), b)
    decreases |a|
  {
    hide Step;
    if a == [] {
      assert a + b == b;
    } else {
      assert (a + b)[1..] == a[1..] + b;
      RunConcat(Step(t, a[0]), a[1..], b);
    }
  }
}
