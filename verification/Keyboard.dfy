/** The keyboard's shift state, and what it says about the scan codes so far. */
module Keyboard {
  import opened Keymap

  type Scan = bv8

  const SHIFT: bv8 := 1
  const CTL: bv8 := 2
  const ALT: bv8 := 4
  const CAPSLOCK: bv8 := 8
  const NUMLOCK: bv8 := 16
  const SCROLLLOCK: bv8 := 32
  const E0ESC: bv8 := 64

  function ShiftCode(d: Scan): bv8 {
    if d == 0x1D || d == 0x9D then CTL
    else if d == 0x2A || d == 0x36 then SHIFT
    else if d == 0x38 || d == 0xB8 then ALT
    else 0
  }

  function ToggleCode(d: Scan): bv8 {
    if d == 0x3A then CAPSLOCK
    else if d == 0x45 then NUMLOCK
    else if d == 0x46 then SCROLLLOCK
    else 0
  }

  predicate Has(shift: bv8, bit: bv8) { shift & bit != 0 }

  predicate IsRelease(data: Scan) { data & 0x80 != 0 }

  /** The table index of a code, which the escape before it moves to the upper half. */
  function Index(data: Scan, escaped: bool): Scan {
    if IsRelease(data) then (if escaped then data else data & 0x7f)
    else if escaped then data | 0x80 else data
  }

  function Step(shift: bv8, data: Scan): bv8 {
    if data == 0xE0 then shift | E0ESC
    else
      var d := Index(data, Has(shift, E0ESC));
      if IsRelease(data) then shift & !(ShiftCode(d) | E0ESC)
      else ((shift & !E0ESC) | ShiftCode(d)) ^ ToggleCode(d)
  }

  function Run(codes: seq<Scan>): bv8 {
    if codes == [] then 0 else Step(Run(codes[..|codes| - 1]), codes[|codes| - 1])
  }

  /** The letters' case while caps lock is on. */
  function Swapped(shift: bv8, c: int): int {
    if !Has(shift, CAPSLOCK) then c
    else if IsLower(c) then c - 32
    else if IsUpper(c) then c + 32
    else c
  }

  /** Which of the four tables. */
  function Plane(shift: bv8): (t: nat)
    ensures t < 4
  {
    (if Has(shift, SHIFT) then 1 else 0) + (if Has(shift, CTL) then 2 else 0)
  }

  /** The character a key gives. */
  function Typed(shift: bv8, k: nat): int {
    Swapped(shift, Charcode(Plane(shift), k))
  }

  /** A letter key gives its control code with control, else a capital when just one of shift and caps lock is on. */
  lemma LetterTyped(shift: bv8, k: nat)
    requires IsLower(Normalmap(k))
    ensures Typed(shift, k) ==
            if Has(shift, CTL) then Normalmap(k) - 96
            else if Has(shift, SHIFT) != Has(shift, CAPSLOCK) then Normalmap(k) - 32
            else Normalmap(k)
  {
    hide Normalmap, Shiftmap, Ctlmap, Has;
    LetterKeys(k);
  }

  /** To any other key caps lock makes no difference. */
  lemma OtherTyped(shift: bv8, k: nat)
    requires !IsLower(Normalmap(k))
    ensures Typed(shift, k) == Charcode(Plane(shift), k)
  {
    hide Normalmap, Shiftmap, Ctlmap, Has;
    LetterKeys(k);
  }

  /** With control held, the delete key is recognized whatever the state of caps lock. */
  lemma Rebooting(shift: bv8, k: nat)
    requires Has(shift, CTL)
    ensures Typed(shift, k) == KEY_DEL <==> k == 0xD3
  {
    hide Normalmap, Shiftmap, Ctlmap, Has;
    DeleteKey(k);
  }

  function Position(d: Scan): (k: nat)
    ensures k < 256
  {
    d as nat
  }

  lemma EscapeBit(shift: bv8)
    ensures Has(shift, E0ESC) <==> shift & E0ESC != 0
    ensures !Has(shift, E0ESC) ==> shift & !E0ESC == shift
  {
  }

  lemma StepEscaped(shift: bv8)
    ensures Step(shift, 0xE0) == shift | E0ESC && IsRelease(0xE0)
  {
  }

  lemma StepReleased(shift: bv8, data: Scan)
    requires data != 0xE0 && data & 0x80 != 0
    ensures var d := if shift & E0ESC != 0 then data else data & 0x7f;
            IsRelease(data) && Step(shift, data) == shift & !(ShiftCode(d) | E0ESC)
  {
    hide ShiftCode, ToggleCode;
  }

  lemma StepPressed(shift: bv8, data: Scan)
    requires data != 0xE0 && data & 0x80 == 0
    ensures var d := if shift & E0ESC != 0 then data | 0x80 else data;
            var cleared := if shift & E0ESC != 0 then shift & !E0ESC else shift;
            && !IsRelease(data) && d == Index(data, Has(shift, E0ESC))
            && Step(shift, data) == (cleared | ShiftCode(d)) ^ ToggleCode(d)
  {
    hide ShiftCode, ToggleCode, Has;
    EscapeBit(shift);
  }

  class Keyboard {
    var shift: bv8
    var rebooting: bool
    /** All codes read so far. */
    ghost var codes: seq<Scan>

    ghost predicate Valid()
      reads this
    {
      shift == Run(codes)
    }

    constructor ()
      ensures Valid() && codes == [] && !rebooting
    {
      shift, rebooting, codes := 0, false, [];
    }

    method Press(code: Scan) returns (data: Scan)
      requires code != 0xE0 && code & 0x80 == 0
      modifies this`shift
      ensures shift == Step(old(shift), code) && data == Index(code, Has(old(shift), E0ESC))
    {
      hide Step, ShiftCode, ToggleCode, Has, Index;
      StepPressed(shift, code);
      data := code;
      if shift & E0ESC != 0 {
        data := data | 0x80;
        shift := shift & !E0ESC;
      }
      shift := shift | ShiftCode(data);
      shift := shift ^ ToggleCode(data);
    }

    method Release(code: Scan)
      requires code != 0xE0 && code & 0x80 != 0
      modifies this`shift
      ensures shift == Step(old(shift), code)
    {
      hide Step, ShiftCode, ToggleCode;
      StepReleased(shift, code);
      var data := if shift & E0ESC != 0 then code else code & 0x7f;
      shift := shift & !(ShiftCode(data) | E0ESC);
    }

    /** The shift state after a code; says whether that was a key press, and of which index. */
    method UpdateShift(code: Scan) returns (press: bool, data: Scan)
      modifies this`shift
      ensures shift == Step(old(shift), code) && press == !IsRelease(code)
      ensures press ==> data == Index(code, Has(old(shift), E0ESC))
    {
      hide Step, Has, Index;
      press, data := false, code;
      if code == 0xE0 {
        StepEscaped(shift);
        shift := shift | E0ESC;
      } else if code & 0x80 != 0 {
        Release(code);
      } else {
        press := true;
        data := Press(code);
      }
    }

    /** `kbd_proc_data`, with the status byte and the data byte that the controller would give. */
    method KbdProcData(stat: Scan, code: Scan) returns (c: int)
      requires Valid()
      modifies this
      ensures Valid()
      ensures if stat & 1 == 0 || stat & 0x20 != 0 then c == -1 && codes == old(codes) && rebooting == old(rebooting)
              else
                && codes == old(codes) + [code]
                && (IsRelease(code) ==> c == 0 && rebooting == old(rebooting))
                && (!IsRelease(code) ==>
                      var k := Position(Index(code, Has(old(shift), E0ESC)));
                      && c == Typed(shift, k)
                      && (rebooting <==> old(rebooting) || (Has(shift, CTL) && Has(shift, ALT) && k == 0xD3)))
    {
      hide Step, Swapped, Index, Charcode, Ctlmap, Has, IsRelease;
      if stat & 1 == 0 {
        return -1;
      }
      if stat & 0x20 != 0 {
        return -1;
      }
      var press, data := UpdateShift(code);
      codes := codes + [code];
      assert codes[..|codes| - 1] == old(codes);
      if !press {
        return 0;
      }
      c := Swapped(shift, Charcode(Plane(shift), Position(data)));
      if Has(shift, CTL) {
        Rebooting(shift, Position(data));
      }
      if Has(shift, CTL) && Has(shift, ALT) && c == KEY_DEL {
        rebooting := true;
      }
    }
  }

  /** Whether the code at `i` comes right after an escape byte. */
  predicate Escaped(codes: seq<Scan>, i: nat)
    requires i < |codes|
  {
    0 < i && codes[i - 1] == 0xE0
  }

  /** The code at `i` is a key event, at this table index. */
  predicate IsEvent(codes: seq<Scan>, i: nat)
    requires i < |codes|
  {
    codes[i] != 0xE0
  }

  function IndexAt(codes: seq<Scan>, i: nat): Scan
    requires i < |codes|
  {
    Index(codes[i], Escaped(codes, i))
  }

  /** The last event among the first `n` codes that a modifier is mapped to, or -1. */
  function LastMapped(codes: seq<Scan>, n: nat, modifier: bv8): (i: int)
    requires n <= |codes|
    ensures -1 <= i < n
  {
    if n == 0 then -1
    else if IsEvent(codes, n - 1) && ShiftCode(IndexAt(codes, n - 1)) == modifier then n - 1
    else LastMapped(codes, n - 1, modifier)
  }

  /** How often a lock key was pressed in the first `n` codes. */
  function Presses(codes: seq<Scan>, n: nat, lock: bv8): nat
    requires n <= |codes|
  {
    if n == 0 then 0
    else
      Presses(codes, n - 1, lock) +
      if IsEvent(codes, n - 1) && !IsRelease(codes[n - 1]) && ToggleCode(IndexAt(codes, n - 1)) == lock then 1 else 0
  }

  predicate IsModifier(m: bv8) { m == SHIFT || m == CTL || m == ALT }

  predicate IsLock(l: bv8) { l == CAPSLOCK || l == NUMLOCK || l == SCROLLLOCK }

  lemma StepEscape(shift: bv8, data: Scan)
    ensures Has(Step(shift, data), E0ESC) <==> data == 0xE0
  {
  }

  lemma StepModifier(shift: bv8, data: Scan, m: bv8)
    requires IsModifier(m)
    ensures Has(Step(shift, data), m) <==>
            if data != 0xE0 && ShiftCode(Index(data, Has(shift, E0ESC))) == m then !IsRelease(data) else Has(shift, m)
  {
    hide Index;
  }

  lemma StepLock(shift: bv8, data: Scan, l: bv8)
    requires IsLock(l)
    ensures Has(Step(shift, data), l) <==>
            (Has(shift, l) != (data != 0xE0 && !IsRelease(data) && ToggleCode(Index(data, Has(shift, E0ESC))) == l))
  {
    hide Index;
  }

  lemma {:induction false} EscapeHistory(codes: seq<Scan>, n: nat)
    requires n <= |codes|
    ensures Has(Run(codes[..n]), E0ESC) <==> 0 < n && codes[n - 1] == 0xE0
  {
    if 0 < n {
      hide Step;
      RunStep(codes, n);
      StepEscape(Run(codes[..n - 1]), codes[n - 1]);
    }
  }

  lemma RunStep(codes: seq<Scan>, n: nat)
    requires 0 < n <= |codes|
    ensures Run(codes[..n]) == Step(Run(codes[..n - 1]), codes[n - 1])
  {
    hide Step;
    assert codes[..n][..n - 1] == codes[..n - 1];
  }

  lemma {:induction false} ModifierHistory(codes: seq<Scan>, n: nat, m: bv8)
    requires n <= |codes| && IsModifier(m)
    ensures Has(Run(codes[..n]), m) <==> var i := LastMapped(codes, n, m); 0 <= i && !IsRelease(codes[i])
    decreases n
  {
    if 0 < n {
      hide Step, ShiftCode, Index, Has, Run, IsRelease, IsModifier;
      ModifierHistory(codes, n - 1, m);
      EscapeHistory(codes, n - 1);
      RunStep(codes, n);
      StepModifier(Run(codes[..n - 1]), codes[n - 1], m);
    } else {
      assert codes[..0] == [];
    }
  }

  lemma {:induction false} LockHistory(codes: seq<Scan>, n: nat, l: bv8)
    requires n <= |codes| && IsLock(l)
    ensures Has(Run(codes[..n]), l) <==> Presses(codes, n, l) % 2 == 1
    decreases n
  {
    if 0 < n {
      hide Step, ToggleCode, Index, Has, Run, IsRelease, IsLock;
      LockHistory(codes, n - 1, l);
      EscapeHistory(codes, n - 1);
      RunStep(codes, n);
      StepLock(Run(codes[..n - 1]), codes[n - 1], l);
    } else {
      assert codes[..0] == [];
    }
  }

  /** After any codes: the escape bit tells the last one, a modifier bit its last event, a lock bit its presses. */
  lemma ShiftHistory(codes: seq<Scan>, bit: bv8)
    requires IsModifier(bit) || IsLock(bit)
    ensures var s, n := Run(codes), |codes|;
            && (Has(s, E0ESC) <==> 0 < n && codes[n - 1] == 0xE0)
            && (IsModifier(bit) ==>
                  (Has(s, bit) <==> var i := LastMapped(codes, n, bit); 0 <= i && !IsRelease(codes[i])))
            && (IsLock(bit) ==> (Has(s, bit) <==> Presses(codes, n, bit) % 2 == 1))
  {
    hide Run, Has, IsRelease, IsModifier, IsLock;
    assert codes[..|codes|] == codes;
    EscapeHistory(codes, |codes|);
    if IsModifier(bit) {
      ModifierHistory(codes, |codes|, bit);
    }
    if IsLock(bit) {
      LockHistory(codes, |codes|, bit);
    }
  }

  /**
   * The code at `i` comes from a key for the modifier, pressed or released: either shift key, or the control and alt
   * keys on the left and, after an escape byte, on the right.
   */
  predicate FromKey(codes: seq<Scan>, i: nat, m: bv8)
    requires i < |codes|
  {
    var c := codes[i];
    if m == SHIFT then !Escaped(codes, i) && (c == 0x2A || c == 0xAA || c == 0x36 || c == 0xB6)
    else if m == CTL then c == 0x1D || c == 0x9D
    else c == 0x38 || c == 0xB8
  }

  /** The code at `i` is the press of a lock key. */
  predicate LockPress(codes: seq<Scan>, i: nat, l: bv8)
    requires i < |codes|
  {
    !Escaped(codes, i) && codes[i] == if l == CAPSLOCK then 0x3A else if l == NUMLOCK then 0x45 else 0x46
  }

  lemma MappedFromKey(codes: seq<Scan>, i: nat, m: bv8)
    requires i < |codes| && IsModifier(m)
    ensures IsEvent(codes, i) && ShiftCode(IndexAt(codes, i)) == m <==> FromKey(codes, i, m)
  {
  }

  lemma PressedIsLock(codes: seq<Scan>, i: nat, l: bv8)
    requires i < |codes| && IsLock(l)
    ensures IsEvent(codes, i) && !IsRelease(codes[i]) && ToggleCode(IndexAt(codes, i)) == l <==> LockPress(codes, i, l)
  {
  }

  /** The last of the first `n` codes from a key for the modifier, or -1. */
  function LastFrom(codes: seq<Scan>, n: nat, m: bv8): (i: int)
    requires n <= |codes|
    ensures -1 <= i < n
  {
    if n == 0 then -1 else if FromKey(codes, n - 1, m) then n - 1 else LastFrom(codes, n - 1, m)
  }

  /** How many of the first `n` codes press the lock key. */
  function LockPresses(codes: seq<Scan>, n: nat, l: bv8): nat
    requires n <= |codes|
  {
    if n == 0 then 0 else LockPresses(codes, n - 1, l) + if LockPress(codes, n - 1, l) then 1 else 0
  }

  lemma {:induction false} LastIsFrom(codes: seq<Scan>, n: nat, m: bv8)
    requires n <= |codes| && IsModifier(m)
    ensures LastMapped(codes, n, m) == LastFrom(codes, n, m)
  {
    hide FromKey, ShiftCode, IndexAt, IsEvent, IsModifier;
    if 0 < n {
      MappedFromKey(codes, n - 1, m);
      LastIsFrom(codes, n - 1, m);
    }
  }

  lemma {:induction false} PressesAre(codes: seq<Scan>, n: nat, l: bv8)
    requires n <= |codes| && IsLock(l)
    ensures Presses(codes, n, l) == LockPresses(codes, n, l)
  {
    hide LockPress, ToggleCode, IndexAt, IsEvent, IsRelease, IsLock;
    if 0 < n {
      PressedIsLock(codes, n - 1, l);
      PressesAre(codes, n - 1, l);
    }
  }

  /**
   * In terms of the codes the keys send: a modifier is on while its key pressed or released last is down, a lock after
   * an odd number of presses.
   */
  lemma KeysHeld(codes: seq<Scan>, bit: bv8)
    ensures IsModifier(bit) ==>
              (Has(Run(codes), bit) <==> var i := LastFrom(codes, |codes|, bit); 0 <= i && codes[i] < 0x80)
    ensures IsLock(bit) ==> (Has(Run(codes), bit) <==> LockPresses(codes, |codes|, bit) % 2 == 1)
  {
    hide Run, Has, IsModifier, IsLock, LastFrom, LockPresses, LastMapped, Presses;
    if IsModifier(bit) {
      ShiftHistory(codes, bit);
      LastIsFrom(codes, |codes|, bit);
      var i := LastFrom(codes, |codes|, bit);
      if 0 <= i {
        PressBit(codes[i]);
      }
    }
    if IsLock(bit) {
      ShiftHistory(codes, bit);
      PressesAre(codes, |codes|, bit);
    }
  }

  lemma PressBit(c: Scan)
    ensures IsRelease(c) <==> 0x80 <= c
  {
  }

  /**
   * A key that is no letter gives its plain character, with shift the other one on the key, with control what the
   * table for that says.
   */
  lemma SymbolTyped(shift: bv8, k: nat)
    requires !IsLower(Normalmap(k))
    ensures Typed(shift, k) ==
            if Has(shift, CTL) then Ctlmap(k)
            else if Has(shift, SHIFT) && k < 0x37 then Other(Normalmap(k))
            else Normalmap(k)
  {
    hide Normalmap, Shiftmap, Ctlmap, Has, Other;
    OtherTyped(shift, k);
    ShiftedKeys(k);
  }
}
