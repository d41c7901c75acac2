/** The console driver's state and its output half, refining the growing document. */
module Console {
  import opened Int32
  import opened Memory
  import opened Terminal

  /** Moves all rows up by one and clears the last. */
  method ShiftRows(crtBuf: array<Cell>, attr: Cell)
    requires crtBuf.Length == CRT_SIZE
    modifies crtBuf
    ensures crtBuf[..] == old(crtBuf[..])[CRT_COLS..] + Fill(BlankCell(attr), CRT_COLS)
  {
    ghost var was := crtBuf[..];
    Memmove(crtBuf, 0, CRT_COLS, CRT_SIZE - CRT_COLS, 2);
    assert crtBuf[..CRT_SIZE - CRT_COLS] == was[CRT_COLS..];
    var i := CRT_SIZE - CRT_COLS;
    while i < CRT_SIZE
      invariant CRT_SIZE - CRT_COLS <= i <= CRT_SIZE
      invariant crtBuf[..CRT_SIZE - CRT_COLS] == was[CRT_COLS..]
      invariant forall k | CRT_SIZE - CRT_COLS <= k < i :: crtBuf[k] == BlankCell(attr)
    {
      crtBuf[i] := BlankCell(attr);
      i := i + 1;
    }
    assert crtBuf[CRT_SIZE - CRT_COLS..] == Fill(BlankCell(attr), CRT_COLS);
    assert crtBuf[..] == crtBuf[..CRT_SIZE - CRT_COLS] + crtBuf[CRT_SIZE - CRT_COLS..];
  }

  class Console {
    const crtBuf: array<Cell>
    var crtPos: nat
    var crtAttr: Cell
    var esc: int
    var param: int
    const params: array<int>
    var nparams: nat
    /** Everything sent to the two ports so far. */
    var serial: seq<Ch>
    var lpt: seq<Ch>
    /** The rows that have scrolled off. */
    ghost var above: seq<Cell>

    ghost function Screen(): Doc
      reads this, crtBuf
    {
      Doc(above + crtBuf[..], |above| + crtPos, crtAttr)
    }

    ghost function State(): Parser
      requires params.Length == 4 && nparams <= 4
      reads this, params
    {
      Parser(esc, param, params[..nparams])
    }

    ghost predicate Shape()
      reads this
    {
      crtBuf.Length == CRT_SIZE && params.Length == 4 && |above| % CRT_COLS == 0 && nparams <= 4 && AttrOk(crtAttr)
    }

    ghost predicate Valid()
      reads this, crtBuf, params
    {
      Shape() && crtPos < CRT_SIZE && State().Ok()
    }

    ghost function View(): (t: Term)
      requires Valid()
      reads this, crtBuf, params
      ensures t.Ok()
    {
      Term(Output(Screen(), serial, lpt), State())
    }

    constructor (cells: seq<Cell>, pos: nat)
      requires |cells| == CRT_SIZE && pos < CRT_SIZE
      ensures Valid() && fresh(crtBuf) && fresh(params)
      ensures View() == Term(Output(Doc(cells, pos, 0x0700), [], []), Parser(0, -1, []))
    {
      crtBuf := new Cell[CRT_SIZE](i requires 0 <= i < CRT_SIZE => cells[i]);
      params := new int[4](i => 0);
      crtPos, crtAttr, esc, param, nparams := pos, 0x0700, 0, -1, 0;
      serial, lpt, above := [], [], [];
      new;
      assert crtBuf[..] == cells;
    }

    method SerialPutc(c: Ch)
      modifies this`serial
      ensures serial == old(serial) + [Low(c)]
    {
      serial := serial + [Low(c)];
    }

    method LptPutc(c: Ch)
      modifies this`lpt
      ensures lpt == old(lpt) + [Low(c)]
    {
      lpt := lpt + [Low(c)];
    }

    /** Shifts the screen up by one row when the cursor has left it. */
    method ScrollIfNeeded()
      requires Shape() && crtPos < CRT_SIZE + CRT_COLS
      modifies this`crtPos, this`above, crtBuf
      ensures Shape() && crtPos < CRT_SIZE
      ensures Screen() == old(Screen()).Scrolled()
      ensures old(above) <= above
    {
      hide Fill, BlankCell, AttrOk;
      if crtPos >= CRT_SIZE {
        ghost var was := crtBuf[..];
        ShiftRows(crtBuf, crtAttr);
        crtPos := crtPos - CRT_COLS;
        above := above + was[..CRT_COLS];
        assert was == was[..CRT_COLS] + was[CRT_COLS..];
        assert above + crtBuf[..] == old(above + crtBuf[..]) + Fill(BlankCell(crtAttr), CRT_COLS);
      }
    }

    /** Back by one cell, which becomes `x`, but not over the top of the screen. */
    method Erase(x: Cell)
      requires Shape() && crtPos < CRT_SIZE
      modifies this`crtPos, crtBuf
      ensures crtPos < CRT_SIZE
      ensures var d := old(Screen());
              Screen() == if d.cur == d.Top() then d else d.(cells := d.cells[d.cur - 1 := x], cur := d.cur - 1)
    {
      hide AttrOk;
      ghost var d := Screen();
      if crtPos > 0 {
        crtPos := crtPos - 1;
        crtBuf[crtPos] := x;
        assert Screen().cells == d.cells[d.cur - 1 := x];
      }
    }

    method Store(x: Cell)
      requires Shape() && crtPos < CRT_SIZE
      modifies this`crtPos, crtBuf
      ensures crtPos == old(crtPos) + 1
      ensures var d := old(Screen()); Screen() == d.(cells := d.cells[d.cur := x], cur := d.cur + 1)
    {
      hide AttrOk;
      ghost var d := Screen();
      crtBuf[crtPos] := x;
      crtPos := crtPos + 1;
      assert Screen().cells == d.cells[d.cur := x];
    }

    /** To the start of the cursor's row, or of the next one. */
    method ToRowStart(next: bool)
      requires Shape() && crtPos < CRT_SIZE
      modifies this`crtPos
      ensures crtPos < CRT_SIZE + CRT_COLS
      ensures var d := old(Screen()); Screen() == d.(cur := d.cur - d.cur % CRT_COLS + if next then CRT_COLS else 0)
    {
      hide AttrOk;
      RowStarts(|above|, crtPos);
      if next {
        crtPos := crtPos + CRT_COLS;
      }
      crtPos := crtPos - crtPos % CRT_COLS;
    }

    /** The switch of `cga_putc`, for anything but a tab. */
    method Write(c: Ch)
      requires Valid() && Low(c) != TAB
      modifies this`crtPos, crtBuf
      ensures Shape() && crtPos < CRT_SIZE + CRT_COLS && Screen() == old(Screen()).Written(c)
    {
      hide ToCell, Blanked, WithAttr, Low, AttrOk, Parser.Ok;
      LowKept(crtAttr, c);
      var w := WithAttr(crtAttr, c);
      if Low(w) == 8 {
        Erase(Blanked(w));
      } else if Low(w) == 10 {
        ToRowStart(true);
      } else if Low(w) == 13 {
        ToRowStart(false);
      } else {
        Store(ToCell(w));
      }
    }

    /** `cga_putc`; a tab goes back through the whole console, five times. */
    method CgaPutc(c: Ch)
      requires Valid() && esc == 0
      modifies this, crtBuf, params
      ensures Valid() && old(above) <= above
      ensures View() == old(View()).(out := old(View()).out.Shown(c))
      decreases if Low(c) == TAB then 1 else 0, 0
    {
      hide Doc.Written, Step, Spaces, Parser.Ok;
      if Low(c) == TAB {
        TabIsSpaces(View(), c);
        ConsPutc(SPACE);
        ConsPutc(SPACE);
        ConsPutc(SPACE);
        ConsPutc(SPACE);
        ConsPutc(SPACE);
      } else {
        Write(c);
      }
      ScrollIfNeeded();
    }

    /** Serial port, parallel port, screen. */
    method PrintAll(c: Ch)
      requires Valid() && esc == 0
      modifies this, crtBuf, params
      ensures Valid() && old(above) <= above
      ensures View() == old(View()).(out := old(View()).out.Print(c))
      decreases if Low(c) == TAB then 1 else 0, 1
    {
      hide Low, Output.Shown, Doc.Ok, Parser.Ok;
      SerialPutc(c);
      LptPutc(c);
      CgaPutc(c);
    }

    method Push()
      requires Valid()
      modifies this`nparams, params
      ensures Valid() && params[..nparams] == Pushed(old(State()))
    {
      if nparams < 4 {
        params[nparams] := if param < 0 then 0 else param;
        nparams := nparams + 1;
      }
    }

    method ApplyRenditions()
      requires Valid()
      modifies this`crtAttr
      ensures Valid() && crtAttr == WithParams(old(crtAttr), params[..nparams])
    {
      hide WithParam;
      var i := 0;
      while i < nparams
        invariant 0 <= i <= nparams && AttrOk(crtAttr)
        invariant WithParams(crtAttr, params[i..nparams]) == WithParams(old(crtAttr), params[..nparams])
      {
        assert params[i..nparams][1..] == params[i + 1..nparams];
        crtAttr := WithParam(crtAttr, params[i]);
        i := i + 1;
      }
    }

    /** A digit within a control sequence. */
    method ReadDigit(ch: Ch)
      requires Valid() && IsDigit(ch)
      modifies this`param
      ensures Valid() && param == Extended(old(param), DigitValue(ch))
    {
      hide DigitValue, Wrapped, AttrOk;
      if param < 0 {
        param := 0;
      }
      param := Wrapped(param * 10 + DigitValue(ch));
    }

    /** The end of a rendition sequence. */
    method Render()
      requires Valid() && esc == 2
      modifies this`crtAttr, this`esc, this`nparams, params
      ensures Valid()
      ensures var t, ps := old(View()), Pushed(old(State()));
              View() == Term(t.out.Select(ps), t.parser.(params := ps, esc := 0))
    {
      hide WithParams, Doc.Ok, Pushed, AttrOk;
      Push();
      ApplyRenditions();
      esc := 0;
    }

    /** A character within a control sequence. */
    method CsiPutc(c: Ch)
      requires Valid() && esc == 2
      modifies this`crtAttr, this`esc, this`param, this`nparams, params
      ensures Valid() && View() == Step(old(View()), c)
    {
      hide WithParams, Doc.Ok, DigitValue, Low, Extended, Pushed, AttrOk;
      var ch := Low(c);
      if IsDigit(ch) {
        ReadDigit(ch);
        return;
      }
      if ch == SEMICOLON {
        Push();
        param := -1;
        return;
      }
      if ch == LETTER_M {
        Render();
        return;
      }
      esc := 0;
    }

    /** `cons_putc`. */
    method ConsPutc(c: Ch)
      requires Valid()
      modifies this, crtBuf, params
      ensures Valid() && old(above) <= above
      ensures View() == Step(old(View()), c)
      decreases if Low(c) == TAB then 1 else 0, 2
    {
      hide Output.Print, Doc.Ok;
      if esc == 0 {
        if Low(c) == ESC {
          esc := 1;
          return;
        }
      } else if esc == 1 {
        if Low(c) == BRACKET {
          esc, param, nparams := 2, -1, 0;
          return;
        }
        esc := 0;
        PrintAll(ESC);
      } else if esc == 2 {
        CsiPutc(c);
        return;
      }
      PrintAll(c);
    }
  }

  /** The starts of this and of the next row, counted from the screen's corner and from the first row ever. */
  lemma RowStarts(rows: nat, pos: nat)
    requires rows % CRT_COLS == 0
    ensures rows + (pos - pos % CRT_COLS) == rows + pos - (rows + pos) % CRT_COLS
    ensures rows + (pos + CRT_COLS - (pos + CRT_COLS) % CRT_COLS) == rows + pos + CRT_COLS - (rows + pos) % CRT_COLS
  {
  }
}
