/** The line editor, whose echo keeps the screen in step with its buffer. */
module Readline {
  import opened EditedLine
  import opened Terminal
  import Console

  /** What the keyboard can deliver: `getchar` skips zero and returns a byte. */
  ghost predicate IsKey(c: Ch) { 0 < c < 256 }

  function Glyph(attr: Cell, c: Ch): Cell { ToCell(WithAttr(attr, c)) }

  /** From the end of the prompt, where `d0` has its cursor, up to the cursor of `d` stands exactly `line`. */
  ghost predicate Shows(d0: Doc, d: Doc, line: seq<Ch>) {
    && d.Ok() && d.attr == d0.attr
    && d.Top() <= d0.cur && d.cur == d0.cur + |line|
    && forall j | 0 <= j < |line| :: d.cells[d0.cur + j] == Glyph(d.attr, line[j])
  }

  lemma Printable(c: Ch)
    requires 0x20 <= c < 256
    ensures Low(c) != 8 && Low(c) != TAB && Low(c) != 10 && Low(c) != 13 && Low(c) != ESC
  {
  }

  /** Echoing a character adds it at the cursor, also when that scrolls the screen. */
  lemma EchoAdds(d0: Doc, d: Doc, line: seq<Ch>, c: Ch)
    requires Shows(d0, d, line) && 0x20 <= c < 256 && |line| < BUFLEN - 1
    ensures Shows(d0, d.Display(c), line + [c])
  {
    hide ToCell, WithAttr, Low, AttrOk;
    Printable(c);
    var w := d.Written(c);
    assert w.cells == d.cells[d.cur := Glyph(d.attr, c)];
    var e := d.Display(c);
    assert forall k | 0 <= k < |w.cells| :: e.cells[k] == w.cells[k];
    assert e.Top() <= d0.cur by {
      if e.Top() != d.Top() {
        assert e.Top() == e.cur + CRT_COLS - CRT_SIZE;
      }
    }
  }

  /** Echoing a backspace takes the last character away; it never stops at the top of the screen. */
  lemma EchoErases(d0: Doc, d: Doc, line: seq<Ch>)
    requires Shows(d0, d, line) && 0 < |line|
    ensures Shows(d0, d.Display(8), line[..|line| - 1])
  {
    hide ToCell, WithAttr, Blanked, AttrOk;
    assert Low(8) == 8;
    var e := d.Display(8);
    assert e.cells == d.cells[d.cur - 1 := Blanked(WithAttr(d.attr, 8))];
  }

  lemma ShowsNothing(d0: Doc)
    requires d0.Ok()
    ensures Shows(d0, d0, [])
  {
  }

  lemma RoomToErase(d0: Doc, d: Doc, line: seq<Ch>)
    requires Shows(d0, d, line)
    ensures |line| <= d.cur - d.Top()
  {
  }

  ghost predicate NoEnd(keys: seq<Ch>) {
    forall j | 0 <= j < |keys| :: keys[j] != 10 && keys[j] != 13
  }

  /** `cprintf("%s", prompt)`, with the prompt as `putch` gets it. */
  method ShowPrompt(con: Console.Console, prompt: seq<Ch>)
    requires con.Valid()
    modifies con, con.crtBuf, con.params
    ensures con.Valid() && con.View() == Run(old(con.View()), prompt)
  {
    hide Step, Doc.Ok, Parser.Ok;
    var k := 0;
    while k < |prompt|
      invariant 0 <= k <= |prompt| && con.Valid()
      invariant Run(con.View(), prompt[k..]) == Run(old(con.View()), prompt)
    {
      assert prompt[k..][1..] == prompt[k + 1..];
      con.ConsPutc(prompt[k]);
      k := k + 1;
    }
  }

  /** One `cputchar` from the idle state. */
  method Echo(con: Console.Console, c: Ch)
    requires con.Valid() && con.esc == 0 && Low(c) != ESC
    modifies con, con.crtBuf, con.params
    ensures con.Valid() && con.esc == 0 && con.Screen() == old(con.Screen()).Display(c)
  {
    con.ConsPutc(c);
  }

  /** One key that does not end the line. */
  method EditKey(con: Console.Console, buf: array<Ch>, i: nat, c: Ch, ghost d0: Doc) returns (i': nat)
    requires con.Valid() && con.esc == 0 && buf.Length == BUFLEN && i < BUFLEN && IsKey(c) && !IsEnd(c)
    requires Shows(d0, con.Screen(), buf[..i])
    modifies con, con.crtBuf, con.params, buf
    ensures con.Valid() && con.esc == 0 && i' < BUFLEN
    ensures buf[..i'] == Keyed(old(buf[..i]), c)
    ensures Shows(d0, con.Screen(), buf[..i'])
  {
    hide Doc.Display, Shows;
    i' := i;
    if (c == 8 || c == 0x7f) && i > 0 {
      EchoErases(d0, con.Screen(), buf[..i]);
      Echo(con, 8);
      i' := i - 1;
      assert buf[..i'] == old(buf[..i])[..i - 1];
    } else if c >= 0x20 && i < BUFLEN - 1 {
      EchoAdds(d0, con.Screen(), buf[..i], c);
      Printable(c);
      Echo(con, c);
      buf[i] := c;
      i' := i + 1;
      assert buf[..i'] == old(buf[..i]) + [c];
    }
  }

  /**
   * Reads keys until one ends the line, or there are no more for now.  All
   * along the screen shows the line right after the prompt, and the cursor has room
   * to go back over it.
   */
  method Readline(con: Console.Console, buf: array<Ch>, prompt: seq<Ch>, keys: seq<Ch>)
    returns (done: bool, i: nat, used: nat)
    requires con.Valid() && buf.Length == BUFLEN
    requires forall j | 0 <= j < |keys| :: IsKey(keys[j])
    requires Run(con.View(), prompt).parser.esc == 0
    modifies con, con.crtBuf, con.params, buf
    ensures con.Valid() && i < BUFLEN && used <= |keys|
    ensures buf[..i] == Edited(keys[..used]) == Kept(keys[..used])
    ensures done ==> 0 < used && (Plain(keys[..used - 1]) ==> buf[..i] == keys[..used - 1])
    ensures var d0 := Run(old(con.View()), prompt).out.doc;
            if done then
              && 0 < used && (keys[used - 1] == 10 || keys[used - 1] == 13) && NoEnd(keys[..used - 1]) && buf[i] == 0
              && exists d: Doc :: Shows(d0, d, buf[..i]) && con.Screen() == d.Display(10)
            else
              used == |keys| && NoEnd(keys) && Shows(d0, con.Screen(), buf[..i]) && i <= con.crtPos
  {
    hide Doc.Display, Shows, Keyed, Edited, Kept;
    ghost var d0 := Run(con.View(), prompt).out.doc;
    ShowPrompt(con, prompt);
    i, used := 0, 0;
    ShowsNothing(d0);
    NothingEdited();
    while used < |keys|
      invariant con.Valid() && con.esc == 0 && i < BUFLEN && used <= |keys|
      invariant buf[..i] == Edited(keys[..used]) && NoEnd(keys[..used])
      invariant Shows(d0, con.Screen(), buf[..i])
    {
      var c := keys[used];
      used := used + 1;
      assert keys[..used] == keys[..used - 1] + [c];
      EditedMore(keys[..used - 1], c);
      if IsEnd(c) {
        LineRead(keys[..used - 1], c);
        ghost var d := con.Screen();
        Echo(con, 10);
        buf[i] := 0;
        assert Shows(d0, d, buf[..i]);
        return true, i, used;
      }
      i := EditKey(con, buf, i, c, d0);
    }
    assert keys[..used] == keys;
    EditedIsKept(keys);
    RoomToErase(d0, con.Screen(), buf[..i]);
    done := false;
  }
}
