/** The four character tables of the keyboard. */
module Keymap {

  const KEY_HOME: int := 0xE0
  const KEY_END: int := 0xE1
  const KEY_UP: int := 0xE2
  const KEY_DN: int := 0xE3
  const KEY_LF: int := 0xE4
  const KEY_RT: int := 0xE5
  const KEY_PGUP: int := 0xE6
  const KEY_PGDN: int := 0xE7
  const KEY_INS: int := 0xE8
  const KEY_DEL: int := 0xE9

  /** Eight keys in a row, the plain and the shifted ones; NUL for none. */
  const NORMAL: seq<string> := [
    "\0\U{1b}123456", "7890-=\U{8}\t", "qwertyui", "op[]\n\0as", "dfghjkl;", "'`\0\\zxcv", "bnm,./\0*",
    "\0 \0\0\0\0\0\0", "\0\0\0\0\0\0\07", "89-456+1", "230.\0\0\0\0"]

  const SHIFTED: seq<string> := [
    "\0\U{1b}!@#$%^", "&*()_+\U{8}\t", "QWERTYUI", "OP{}\n\0AS", "DFGHJKL:", "\"~\0|ZXCV", "BNM<>?\0*",
    "\0 \0\0\0\0\0\0", "\0\0\0\0\0\0\07", "89-456+1", "230.\0\0\0\0"]

  /** With control held, each character stands for the one 64 places before it; '@' for none. */
  const CONTROL: seq<string> := [
    "@@@@@@@@", "@@@@@@@@", "QWERTYUI", "OP@@M@AS", "DFGHJKL@", "@@@\\ZXCV", "BNM@@/@@",
    "@@@@@@@@", "@@@@@@@@", "@@@@@@@@", "@@@@@@@@"]

  function InRows(rows: seq<string>, k: nat, none: char): (c: char)
  {
    if k / 8 < |rows| && k % 8 < |rows[k / 8]| then rows[k / 8][k % 8] else none
  }

  /** The keys that send an escape byte first. */
  function Special(k: nat): int {
    if k == 0xC8 then KEY_UP
    else if k == 0xC9 then KEY_PGUP
    else if k == 0xCB then KEY_LF
    else if k == 0xCD then KEY_RT
    else if k == 0xCF then KEY_END
    else if k == 0xD0 then KEY_DN
    else if k == 0xD1 then KEY_PGDN
    else if k == 0xD2 then KEY_INS
    else if k == 0xD3 then KEY_DEL
    else 0
  }

  function Keypad(k: nat): int {
    if k == 0x9C then '\n' as int
    else if k == 0xB5 then '/' as int
    else if k == 0xC7 then KEY_HOME
    else Special(k)
  }

  function Normalmap(k: nat): int {
    if k < 88 then InRows(NORMAL, k, '\0') as int else Keypad(k)
  }

  function Shiftmap(k: nat): int {
    if k < 88 then InRows(SHIFTED, k, '\0') as int else Keypad(k)
  }

  /** `x - '@'`, as a byte. */
  function Control(x: char): int {
    if x < '@' then x as int - '@' as int + 256 else x as int - '@' as int
  }

  function Ctlmap(k: nat): int {
    if k < 88 then Control(InRows(CONTROL, k, '@'))
    else if k == 0x97 then KEY_HOME
    else if k == 0xB5 then Control('/')
    else Special(k)
  }

  /** The tables, chosen by the shift and control bits. */
  function Charcode(plane: nat, k: nat): int
    requires plane < 4
  {
    if plane == 0 then Normalmap(k) else if plane == 1 then Shiftmap(k) else Ctlmap(k)
  }

  predicate IsLower(c: int) { 'a' as int <= c <= 'z' as int }

  predicate IsUpper(c: int) { 'A' as int <= c <= 'Z' as int }

  predicate IsLetter(c: int) { IsLower(c) || IsUpper(c) }

  /** A letter key, with its capital and its control code; or no letter in any table. */
  predicate Agree(normal: int, shifted: int, ctl: int) {
    if IsLower(normal) then shifted == normal - 32 && ctl == normal - 96
    else !IsLetter(normal) && !IsLetter(shifted) && !IsLetter(ctl)
  }

  predicate RowsAgree(normal: string, shifted: string, ctl: string) {
    && |normal| == |shifted| == |ctl| == 8
    && forall i | 0 <= i < 8 :: Agree(normal[i] as int, shifted[i] as int, Control(ctl[i]))
  }

  lemma DigitKeys(r: nat)
    requires r < 2
    ensures RowsAgree(NORMAL[r], SHIFTED[r], CONTROL[r])
  {
  }

  lemma UpperKeys()
    ensures RowsAgree(NORMAL[2], SHIFTED[2], CONTROL[2])
  {
  }

  lemma LastUpperKeys()
    ensures RowsAgree(NORMAL[3], SHIFTED[3], CONTROL[3])
  {
  }

  lemma HomeKeys()
    ensures RowsAgree(NORMAL[4], SHIFTED[4], CONTROL[4])
  {
  }

  lemma LowerKeys()
    ensures RowsAgree(NORMAL[5], SHIFTED[5], CONTROL[5])
  {
  }

  lemma LastLowerKeys()
    ensures RowsAgree(NORMAL[6], SHIFTED[6], CONTROL[6])
  {
  }

  lemma PadKeys(r: nat)
    requires 7 <= r < 11
    ensures RowsAgree(NORMAL[r], SHIFTED[r], CONTROL[r])
  {
  }

  /** The tables agree on which keys are letters. */
  lemma LetterKeys(k: nat)
    ensures Agree(Normalmap(k), Shiftmap(k), Ctlmap(k))
  {
    if k < 88 {
      var r, i := k / 8, k % 8;
      if r < 2 {
        DigitKeys(r);
      } else if r == 2 {
        UpperKeys();
      } else if r == 3 {
        LastUpperKeys();
      } else if r == 4 {
        HomeKeys();
      } else if r == 5 {
        LowerKeys();
      } else if r == 6 {
        LastLowerKeys();
      } else {
        PadKeys(r);
      }
      hide Agree;
      assert Agree(NORMAL[r][i] as int, SHIFTED[r][i] as int, Control(CONTROL[r][i]));
    }
  }

  /** The other character on a key: the capital, or the symbol above the digit or sign. */
  function Other(c: int): int {
    if IsLower(c) then c - 32
    else if c == '1' as int then '!' as int
    else if c == '2' as int then '@' as int
    else if c == '3' as int then '#' as int
    else if c == '4' as int then '$' as int
    else if c == '5' as int then '%' as int
    else if c == '6' as int then '^' as int
    else if c == '7' as int then '&' as int
    else if c == '8' as int then '*' as int
    else if c == '9' as int then '(' as int
    else if c == '0' as int then ')' as int
    else if c == '-' as int then '_' as int
    else if c == '=' as int then '+' as int
    else if c == '[' as int then '{' as int
    else if c == ']' as int then '}' as int
    else if c == ';' as int then ':' as int
    else if c == '\'' as int then '"' as int
    else if c == '`' as int then '~' as int
    else if c == '\\' as int then '|' as int
    else if c == ',' as int then '<' as int
    else if c == '.' as int then '>' as int
    else if c == '/' as int then '?' as int
    else c
  }

  /** In a row of the main block shift gives the other character, elsewhere the same. */
  predicate ShiftsRow(normal: string, shifted: string, from: nat) {
    && |normal| == |shifted| == 8
    && (forall i | 0 <= i < 8 && from + i < 0x37 :: shifted[i] as int == Other(normal[i] as int))
    && (forall i | 0 <= i < 8 && 0x37 <= from + i :: shifted[i] == normal[i])
  }

  lemma ShiftsRow0()
    ensures ShiftsRow(NORMAL[0], SHIFTED[0], 0)
  {
  }

  lemma ShiftsRow1()
    ensures ShiftsRow(NORMAL[1], SHIFTED[1], 8)
  {
  }

  lemma ShiftsRow2()
    ensures ShiftsRow(NORMAL[2], SHIFTED[2], 16)
  {
  }

  lemma ShiftsRow3()
    ensures ShiftsRow(NORMAL[3], SHIFTED[3], 24)
  {
  }

  lemma ShiftsRow4()
    ensures ShiftsRow(NORMAL[4], SHIFTED[4], 32)
  {
  }

  lemma ShiftsRow5()
    ensures ShiftsRow(NORMAL[5], SHIFTED[5], 40)
  {
  }

  lemma ShiftsRow6()
    ensures ShiftsRow(NORMAL[6], SHIFTED[6], 48)
  {
  }

  lemma ShiftsPad(r: nat)
    requires 7 <= r < 11
    ensures ShiftsRow(NORMAL[r], SHIFTED[r], 8 * r)
  {
  }

  lemma ShiftsRows(r: nat)
    requires r < 11
    ensures ShiftsRow(NORMAL[r], SHIFTED[r], 8 * r)
  {
    hide ShiftsRow;
    if r == 0 {
      ShiftsRow0();
    } else if r == 1 {
      ShiftsRow1();
    } else if r == 2 {
      ShiftsRow2();
    } else if r == 3 {
      ShiftsRow3();
    } else if r == 4 {
      ShiftsRow4();
    } else if r == 5 {
      ShiftsRow5();
    } else if r == 6 {
      ShiftsRow6();
    } else {
      ShiftsPad(r);
    }
  }

  /** What shift makes of every key. */
  lemma ShiftedKeys(k: nat)
    ensures Shiftmap(k) == if k < 0x37 then Other(Normalmap(k)) else Normalmap(k)
  {
    if k < 88 {
      var r, i := k / 8, k % 8;
      ShiftsRows(r);
      hide Other;
      var plain, shifted := NORMAL[r][i], SHIFTED[r][i];
    }
  }

  /** Only one index gives the delete key while control is held. */
  lemma DeleteKey(k: nat)
    ensures Ctlmap(k) == KEY_DEL <==> k == 0xD3
  {
  }
}
