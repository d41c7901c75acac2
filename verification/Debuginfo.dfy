/** `debuginfo_eip`: three nested searches, for the file, the function and the line of an address. */
module Debuginfo {
  import opened CStrings
  import opened Int32
  import opened Stabs
  import opened StabSearch

  const ULIM: int := 0xef80_0000
  const UNKNOWN: string := "<unknown>"

  /** Stops with a panic, reads before the table's first entry, returns -1, or returns 0. */
  datatype Outcome = UserAddress | Fault | NotFound | Success

  datatype Info = Info(file: string, line: int, fnName: string, fnNamelen: nat, fnAddr: uint32, fnNarg: nat)

  function NameAt(strings: string, strx: uint32, default: string): string {
    if strx < |strings| then CString(strings, strx) else default
  }

  /** Where `c` first occurs in `s`, or the length of `s`. */
  function IndexOf(s: string, c: char): (k: nat)
    ensures k <= |s|
  {
    if s == "" || s[0] == c then 0 else IndexOf(s[1..], c) + 1
  }

  lemma {:induction false} IndexOfFirst(s: string, c: char)
    ensures var k := IndexOf(s, c); c !in s[..k] && (k < |s| <==> c in s) && (k < |s| ==> s[k] == c)
  {
    if s != "" && s[0] != c {
      IndexOfFirst(s[1..], c);
      var k := IndexOf(s, c);
      assert s[..k] == [s[0]] + s[1..][..k - 1];
    }
  }

  predicate IsSource(e: Stab) {
    e.typ == N_SOL || (e.typ == N_SO && e.value != 0)
  }

  /** The last entry in [lo, i] that names a source file, or an index below `lo`. */
  function SourceAt(stabs: seq<Stab>, i: int, lo: int): (k: int)
    requires 0 <= lo && i < |stabs|
    ensures k <= i && (lo <= k ==> IsSource(stabs[k])) && (lo <= i ==> lo - 1 <= k)
    decreases i - lo + 1
  {
    if i < lo || IsSource(stabs[i]) then i else SourceAt(stabs, i - 1, lo)
  }

  /** How many parameter entries follow one another from index `i`, stopping before index `stop`. */
  function ArgRun(stabs: seq<Stab>, i: int, stop: int): nat
    requires 0 <= i && stop <= |stabs|
    decreases stop - i
  {
    if i < stop && stabs[i].typ == N_PSYM then 1 + ArgRun(stabs, i + 1, stop) else 0
  }

  /** The two ways to search a region: the program's, and the plain scan it should agree with. */
  datatype Strategy = Binary | Linear

  function Find(how: Strategy, stabs: seq<Stab>, g: Region, typ: int, addr: uint32): (h: Region)
    requires InTable(stabs, g.left, g.right)
    ensures g.left - 1 <= h.left <= h.right + 1 && h.right <= g.right
    ensures h.left < g.left ==> h.right == g.left - 1
  {
    match how
    case Binary => BinaryRegion(stabs, g.left, g.right, typ, addr)
    case Linear => LinearRegion(stabs, g.left, g.right, typ, addr)
  }

  function Unknown(addr: uint32): Info {
    Info(UNKNOWN, 0, UNKNOWN, 9, addr, 0)
  }

  /** `addr -= base` on 32 bits. */
  function Relative(addr: uint32, base: uint32): uint32 {
    if base <= addr then addr - base else addr - base + RANGE32
  }

  /** Where the lines are looked up, at which address, and what is known by then. */
  datatype Scope = Scope(info: Info, region: Region, addr: uint32)

  function ScopeOf(stabs: seq<Stab>, strings: string, addr: uint32, file: Region, fun: Region): (s: Scope)
    requires 0 <= fun.left && fun.right < |stabs|
    ensures s.region == if fun.left <= fun.right then fun else file
  {
    var found := fun.left <= fun.right;
    var name := if found then NameAt(strings, stabs[fun.left].strx, UNKNOWN) else UNKNOWN;
    var base := if found then stabs[fun.left].value else addr;
    Scope(Unknown(addr).(fnName := name, fnNamelen := IndexOf(name, ':'), fnAddr := base),
          if found then fun else file,
          if found then Relative(addr, base) else addr)
  }

  function LineOf(stabs: seq<Stab>, strings: string, info: Info, file: Region, fun: Region, line: Region)
    : (Outcome, Info)
    requires 0 <= file.left && line.left <= line.right + 1 && line.right < |stabs|
    requires 0 <= fun.left && fun.right < |stabs|
  {
    if line.left > line.right then (NotFound, info)
    else if line.left < 0 then (Fault, info)
    else
      var src := SourceAt(stabs, line.left, file.left);
      (Success, info.(line := stabs[line.left].desc,
                      file := if file.left <= src then NameAt(strings, stabs[src].strx, UNKNOWN) else UNKNOWN,
                      fnNarg := ArgRun(stabs, fun.left + 1, fun.right)))
  }

  ghost predicate Usable(strings: string) {
    strings != "" && strings[|strings| - 1] == '\0'
  }

  /** What follows once the entries of the file are bracketed. */
  ghost function LookupInFile(how: Strategy, stabs: seq<Stab>, strings: string, addr: uint32, file: Region)
    : (Outcome, Info)
    requires InTable(stabs, file.left, file.right) && 0 < file.left
  {
    var fun := Find(how, stabs, file, N_FUN, addr);
    var scope := ScopeOf(stabs, strings, addr, file, fun);
    var line := Find(how, stabs, scope.region, N_SLINE, scope.addr);
    LineOf(stabs, strings, scope.info, file, fun, line)
  }

  /** The whole lookup, with either way to search. */
  ghost function Lookup(how: Strategy, stabs: seq<Stab>, strings: string, addr: uint32): (Outcome, Info) {
    if addr < ULIM then (UserAddress, Unknown(addr))
    else if !Usable(strings) then (NotFound, Unknown(addr))
    else
      var file := Find(how, stabs, Region(0, |stabs| - 1), N_SO, addr);
      if file.left == 0 then (NotFound, Unknown(addr))
      else if file.left < 0 then (Fault, Unknown(addr))
      else LookupInFile(how, stabs, strings, addr, file)
  }

  /** `strfind`, as an offset into the string. */
  method Strfind(s: string, c: char) returns (k: nat)
    ensures k == IndexOf(s, c)
  {
    k := 0;
    while k < |s|
      invariant k <= |s|
      invariant IndexOf(s, c) == k + IndexOf(s[k..], c)
    {
      if s[k] == c {
        break;
      }
      k := k + 1;
    }
  }

  /** The backward loop to the nearest entry that names a source file. */
  method SourceBack(stabs: seq<Stab>, i: int, lfile: int) returns (lline: int)
    requires 0 <= lfile && i < |stabs|
    ensures lline == SourceAt(stabs, i, lfile)
  {
    lline := i;
    while lline >= lfile && stabs[lline].typ != N_SOL && (stabs[lline].typ != N_SO || stabs[lline].value == 0)
      invariant lline <= i
      invariant SourceAt(stabs, lline, lfile) == SourceAt(stabs, i, lfile)
    {
      lline := lline - 1;
    }
  }

  /** The record that `debuginfo_eip` fills in. */
  class Eipdebuginfo {
    var file: string
    var line: int
    var fnName: string
    var fnNamelen: nat
    var fnAddr: uint32
    var fnNarg: nat

    constructor ()
      ensures Value() == Info("", 0, "", 0, 0, 0)
    {
      file, line, fnName, fnNamelen, fnAddr, fnNarg := "", 0, "", 0, 0, 0;
    }

    ghost function Value(): Info
      reads this
    {
      Info(file, line, fnName, fnNamelen, fnAddr, fnNarg)
    }

    /** The first half: `addr` becomes relative when a function was found. */
    method FillFunction(stabs: seq<Stab>, strings: string, addr: uint32, lfile: int, rfile: int, lfun: int, rfun: int)
      returns (lline: int, rline: int, a: uint32)
      requires 0 <= lfun && rfun < |stabs|
      requires Value() == Unknown(addr)
      modifies this`fnName, this`fnAddr, this`fnNamelen
      ensures Scope(Value(), Region(lline, rline), a) ==
              ScopeOf(stabs, strings, addr, Region(lfile, rfile), Region(lfun, rfun))
    {
      hide IndexOf, CString;
      if lfun <= rfun {
        if stabs[lfun].strx < |strings| {
          fnName := CString(strings, stabs[lfun].strx);
        }
        fnAddr := stabs[lfun].value;
        a := Relative(addr, fnAddr);
        lline, rline := lfun, rfun;
      } else {
        fnAddr := addr;
        a := addr;
        lline, rline := lfile, rfile;
      }
      fnNamelen := Strfind(fnName, ':');
    }

    method CountArgs(stabs: seq<Stab>, lfun: int, rfun: int)
      requires 0 <= lfun < rfun < |stabs|
      modifies this`fnNarg
      ensures fnNarg == old(fnNarg) + ArgRun(stabs, lfun + 1, rfun)
    {
      var lline := lfun + 1;
      while lline < rfun && stabs[lline].typ == N_PSYM
        invariant lfun + 1 <= lline <= rfun
        invariant fnNarg + ArgRun(stabs, lline, rfun) == old(fnNarg) + ArgRun(stabs, lfun + 1, rfun)
      {
        fnNarg := fnNarg + 1;
        lline := lline + 1;
      }
    }

    /** The second half: the line, the file it comes from, the number of arguments. */
    method FillLine(stabs: seq<Stab>, strings: string, lfile: int, rfile: int, lfun: int, rfun: int,
                    lline0: int, rline: int)
      returns (outcome: Outcome)
      requires 0 <= lfile && lline0 <= rline + 1 && rline < |stabs|
      requires 0 <= lfun && rfun < |stabs|
      requires line == 0 && file == UNKNOWN && fnNarg == 0
      modifies this
      ensures (outcome, Value()) ==
              LineOf(stabs, strings, old(Value()), Region(lfile, rfile), Region(lfun, rfun), Region(lline0, rline))
    {
      var lline := lline0;
      if lline > rline {
        return NotFound;
      }
      if lline < 0 {
        return Fault;
      }
      line := stabs[lline].desc;
      lline := SourceBack(stabs, lline, lfile);
      if lline >= lfile && stabs[lline].strx < |strings| {
        file := CString(strings, stabs[lline].strx);
      }
      if lfun < rfun {
        CountArgs(stabs, lfun, rfun);
      }
      return Success;
    }

    method DebuginfoEip(stabs: seq<Stab>, strings: string, addr: uint32) returns (outcome: Outcome)
      modifies this
      ensures (outcome, Value()) == Lookup(Binary, stabs, strings, addr)
    {
      file, line, fnName, fnNamelen, fnAddr, fnNarg := UNKNOWN, 0, UNKNOWN, 9, addr, 0;
      if addr < ULIM {
        return UserAddress;
      }
      if |strings| == 0 || strings[|strings| - 1] != '\0' {
        return NotFound;
      }
      var lfile, rfile := StabBinsearch(stabs, 0, |stabs| - 1, N_SO, addr);
      if lfile == 0 {
        return NotFound;
      }
      if lfile < 0 {
        return Fault;
      }
      var lfun, rfun := StabBinsearch(stabs, lfile, rfile, N_FUN, addr);
      var lline, rline, a := FillFunction(stabs, strings, addr, lfile, rfile, lfun, rfun);
      lline, rline := StabBinsearch(stabs, lline, rline, N_SLINE, a);
      outcome := FillLine(stabs, strings, lfile, rfile, lfun, rfun, lline, rline);
    }
  }
}
