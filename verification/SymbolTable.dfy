/**
 * The symbol table as a compiler writes it, files that hold functions that hold
 * lines, and the lookup one would write on that structure.
 */
module SymbolTable {
  import opened Slices
  import opened Int32
  import opened Stabs
  import opened StabSearch
  import opened StabTheorems
  import opened StabBlocks
  import opened Debuginfo

  /** A function: its own entry and what follows up to the next function. */
  datatype Func = Func(head: Stab, body: seq<Stab>) {
    function Entries(): seq<Stab> { [head] + body }
  }

  /** A source file: its own entry, what precedes its first function, and its functions. */
  datatype File = File(head: Stab, prelude: seq<Stab>, funs: seq<Func>) {
    function Lead(): seq<Stab> { [head] + prelude }

    function FunBlocks(): (bs: seq<seq<Stab>>)
      ensures |bs| == |funs| && forall j | 0 <= j < |bs| :: bs[j] == funs[j].Entries()
    {
      seq(|funs|, j requires 0 <= j < |funs| => funs[j].Entries())
    }

    function Entries(): seq<Stab> { Lead() + Flat(FunBlocks()) }
  }

  function FileBlocks(files: seq<File>): (bs: seq<seq<Stab>>)
    ensures |bs| == |files| && forall i | 0 <= i < |bs| :: bs[i] == files[i].Entries()
  {
    seq(|files|, i requires 0 <= i < |files| => files[i].Entries())
  }

  /** One header entry, then the files one after another. */
  function Table(header: Stab, files: seq<File>): seq<Stab> {
    [header] + Flat(FileBlocks(files))
  }

  function FileHeads(files: seq<File>): (hs: seq<Stab>)
    ensures hs == Heads(FileBlocks(files))
  {
    seq(|files|, i requires 0 <= i < |files| => files[i].head)
  }

  function FunHeads(file: File): (hs: seq<Stab>)
    ensures hs == Heads(file.FunBlocks())
  {
    seq(|file.funs|, j requires 0 <= j < |file.funs| => file.funs[j].head)
  }

  /** Entries of the two structural types are where they belong, and addresses go up. */
  ghost predicate GoodFunc(f: Func) {
    && f.head.typ == N_FUN && NoneOf(f.body, N_FUN) && NoneOf(f.body, N_SO)
    && Sorted(f.Entries(), 0, |f.body|, N_SLINE)
  }

  ghost predicate GoodFile(f: File) {
    && f.head.typ == N_SO && NoneOf(f.prelude, N_FUN) && NoneOf(f.prelude, N_SO)
    && Sorted(f.Lead(), 0, |f.prelude|, N_SLINE)
    && Ascending(FunHeads(f))
    && forall j | 0 <= j < |f.funs| :: GoodFunc(f.funs[j])
  }

  ghost predicate GoodTable(header: Stab, files: seq<File>) {
    && header.typ != N_SO
    && Ascending(FileHeads(files))
    && forall i | 0 <= i < |files| :: GoodFile(files[i])
  }

  /** The line entry for an offset: the last at or below it, entry 0 when all are above, -1 when there are none. */
  function LineEntry(section: seq<Stab>, a: int): (k: int)
    requires section != []
    ensures -1 <= k < |section|
  {
    var k := LastAtMost(section, 0, |section| - 1, N_SLINE, a);
    if 0 <= k || FirstAbove(section, 0, |section| - 1, N_SLINE, -1) == |section| then k else 0
  }

  /** The name in the last entry of `s` that names a source file. */
  function LastSource(s: seq<Stab>, strings: string): string {
    if s == [] then UNKNOWN
    else if IsSource(s[|s| - 1]) then NameAt(strings, s[|s| - 1].strx, UNKNOWN)
    else LastSource(s[..|s| - 1], strings)
  }

  /**
   * A file's part of the table that an address falls in: the last function at or below it,
   * or, when all are above, what comes before the first one.
   */
  function SectionOf(file: File, addr: uint32): seq<Stab> {
    SectionAt(file.Lead(), file.FunBlocks(), LastHead(FunHeads(file), addr))
  }

  /** What precedes that part within the file. */
  function Before(file: File, addr: uint32): seq<Stab> {
    BeforeSection(file.Lead(), file.FunBlocks(), LastHead(FunHeads(file), addr))
  }

  /** A file without functions counts addresses from 0, any other from the head of the section. */
  function LineAddress(file: File, addr: uint32): uint32 {
    if file.funs == [] then addr else Relative(addr, SectionOf(file, addr)[0].value)
  }

  function FunInfo(f: File, strings: string, addr: uint32): Info {
    var head := SectionOf(f, addr)[0];
    var name := if f.funs == [] then UNKNOWN else NameAt(strings, head.strx, UNKNOWN);
    Unknown(addr).(fnName := name, fnNamelen := IndexOf(name, ':'),
                   fnAddr := if f.funs == [] then addr else head.value)
  }

  /** What is known once the line entry is number `k` of the section; `isFun`: the section counts as a function. */
  function AtLineEntry(info: Info, strings: string, section: seq<Stab>, before: seq<Stab>, isFun: bool, k: int)
    : (Outcome, Info)
    requires -1 <= k < |section|
  {
    if k < 0 then (NotFound, info)
    else
      (Success, info.(line := section[k].desc,
                      file := LastSource(before + section[..k + 1], strings),
                      fnNarg := if isFun then ArgRun(section, 1, |section| - 1) else 0))
  }

  function StructInFile(f: File, strings: string, addr: uint32): (Outcome, Info) {
    var section := SectionOf(f, addr);
    AtLineEntry(FunInfo(f, strings, addr), strings, section, Before(f, addr), f.funs != [],
                LineEntry(section, LineAddress(f, addr)))
  }

  /** The lookup on the structure. */
  ghost function StructLookup(files: seq<File>, strings: string, addr: uint32): (Outcome, Info) {
    var i := LastHead(FileHeads(files), addr);
    if addr < ULIM then (UserAddress, Unknown(addr))
    else if !Usable(strings) || i < 0 then (NotFound, Unknown(addr))
    else StructInFile(files[i], strings, addr)
  }

  function Slice(s: seq<Stab>, g: Region): seq<Stab>
    requires InTable(s, g.left, g.right)
  {
    s[g.left..g.right + 1]
  }

  function Shift(g: Region, n: int): Region {
    Region(g.left + n, g.right + n)
  }

  lemma SliceAt(stabs: seq<Stab>, g: Region)
    requires InTable(stabs, g.left, g.right)
    ensures forall i | g.left <= i <= g.right :: stabs[i] == Slice(stabs, g)[i - g.left]
    ensures forall i | 0 <= i < |Slice(stabs, g)| :: Slice(stabs, g)[i] == stabs[g.left + i]
  {
  }

  lemma SortedShift(stabs: seq<Stab>, g: Region, typ: int)
    requires InTable(stabs, g.left, g.right)
    ensures Sorted(stabs, g.left, g.right, typ) <==> Sorted(Slice(stabs, g), 0, g.right - g.left, typ)
  {
    SliceAt(stabs, g);
  }

  lemma {:induction false} LastShift(stabs: seq<Stab>, g: Region, end: int, typ: int, a: int)
    requires InTable(stabs, g.left, g.right) && g.left - 1 <= end <= g.right
    ensures LastAtMost(stabs, g.left, end, typ, a) == LastAtMost(Slice(stabs, g), 0, end - g.left, typ, a) + g.left
    decreases end - g.left + 1
  {
    if g.left <= end {
      assert Slice(stabs, g)[end - g.left] == stabs[end];
      LastShift(stabs, g, end - 1, typ, a);
    }
  }

  lemma {:induction false} FirstShift(stabs: seq<Stab>, g: Region, from: int, typ: int, a: int)
    requires InTable(stabs, g.left, g.right) && g.left <= from <= g.right + 1
    ensures FirstAbove(stabs, from, g.right, typ, a) ==
            FirstAbove(Slice(stabs, g), from - g.left, g.right - g.left, typ, a) + g.left
    decreases g.right - from
  {
    if from <= g.right {
      assert Slice(stabs, g)[from - g.left] == stabs[from];
      FirstShift(stabs, g, from + 1, typ, a);
    }
  }

  /** A scan of a region is a scan of that slice of the table. */
  lemma RegionShift(stabs: seq<Stab>, g: Region, w: seq<Stab>, typ: int, a: uint32)
    requires InTable(stabs, g.left, g.right) && Slice(stabs, g) == w
    ensures LinearRegion(stabs, g.left, g.right, typ, a) == Shift(LinearRegion(w, 0, |w| - 1, typ, a), g.left)
  {
    hide LastAtMost, FirstAbove;
    LastShift(stabs, g, g.right, typ, a);
    FirstShift(stabs, g, g.left, typ, -1);
    FirstShift(stabs, g, LastAtMost(stabs, g.left, g.right, typ, a) + 1, typ, a);
  }

  lemma {:induction false} SourceShift(stabs: seq<Stab>, strings: string, i: int, lo: int)
    requires 0 <= lo <= i + 1 <= |stabs|
    ensures var k := SourceAt(stabs, i, lo);
            LastSource(stabs[lo..i + 1], strings) ==
            if lo <= k then NameAt(strings, stabs[k].strx, UNKNOWN) else UNKNOWN
    decreases i - lo + 1
  {
    hide NameAt, IsSource;
    var s := stabs[lo..i + 1];
    if s != [] {
      assert s[|s| - 1] == stabs[i] && s[..|s| - 1] == stabs[lo..i];
      SourceShift(stabs, strings, i - 1, lo);
    }
  }

  lemma {:induction false} ArgShift(stabs: seq<Stab>, g: Region, i: int, stop: int)
    requires InTable(stabs, g.left, g.right) && 0 <= i && stop <= |Slice(stabs, g)|
    ensures ArgRun(stabs, g.left + i, g.left + stop) == ArgRun(Slice(stabs, g), i, stop)
    decreases stop - i
  {
    if i < stop {
      assert Slice(stabs, g)[i] == stabs[g.left + i];
      ArgShift(stabs, g, i + 1, stop);
    }
  }

  lemma FunBlocksGood(f: File)
    requires GoodFile(f)
    ensures Blocks(f.Lead(), f.FunBlocks(), N_FUN)
  {
  }

  lemma FileIsBlock(f: File)
    requires GoodFile(f)
    ensures IsBlock(f.Entries(), N_SO)
  {
    var e, n := f.Entries(), |f.Lead()|;
    forall i | 1 <= i < |e|
      ensures e[i].typ != N_SO
    {
      if i < n {
        assert e[i] == f.prelude[i - 1];
      } else {
        var j := BlockAt(f.FunBlocks(), i - n);
        var g := f.funs[j];
        assert GoodFunc(g);
        assert e[i] == g.Entries()[i - n - Offset(f.FunBlocks(), j)];
      }
    }
  }

  lemma TableBlocks(header: Stab, files: seq<File>)
    requires GoodTable(header, files)
    ensures Blocks([header], FileBlocks(files), N_SO)
  {
    forall i | 0 <= i < |files|
      ensures IsBlock(FileBlocks(files)[i], N_SO)
    {
      FileIsBlock(files[i]);
    }
  }

  /** The file search brackets exactly the entries of the file. */
  lemma FileSearch(header: Stab, files: seq<File>, addr: uint32) returns (g: Region)
    requires Blocks([header], FileBlocks(files), N_SO) && Ascending(FileHeads(files))
    ensures var t := Table(header, files); g == LinearRegion(t, 0, |t| - 1, N_SO, addr)
    ensures FileAt(Table(header, files), files, LastHead(FileHeads(files), addr), g)
  {
    hide LinearRegion, Flat, LastHead, SectionAt, BeforeSection, Within, Blocks, Ascending, Heads;
    var t := Table(header, files);
    var i := LastHead(FileHeads(files), addr);
    g := LinearRegion(t, 0, |t| - 1, N_SO, addr);
    var bs, any := FileBlocks(files), files != [];
    assert any == (bs != []) by {
      assert |files| == |bs|;
    }
    assert Within(t, SectionAt([header], bs, i), BeforeSection([header], bs, i), any, g) by {
      BlockFound([header], bs, FileHeads(files), any, N_SO, addr);
    }
    FileFound(t, header, files, i, g);
  }

  /** `g` brackets file `i`, or is out of the table's files when there is none. */
  ghost predicate FileAt(t: seq<Stab>, files: seq<File>, i: int, g: Region)
    requires -1 <= i < |files|
  {
    if i < 0 then g.left == 0
    else 0 < g.left <= g.right < |t| && t[g.left..g.right + 1] == files[i].Entries()
  }

  lemma FileFound(t: seq<Stab>, header: Stab, files: seq<File>, i: int, g: Region)
    requires -1 <= i < |files|
    requires var bs := FileBlocks(files);
             Within(t, SectionAt([header], bs, i), BeforeSection([header], bs, i), files != [], g)
    ensures FileAt(t, files, i, g)
  {
    if files != [] {
      assert g.left == |t[..g.left]|;
    }
  }

  /** The function search within a file brackets the section the address falls in. */
  lemma FunSearch(f: File, addr: uint32)
    requires Blocks(f.Lead(), f.FunBlocks(), N_FUN) && Ascending(FunHeads(f))
    ensures var e := f.Entries();
            Within(e, SectionOf(f, addr), Before(f, addr), f.funs != [], LinearRegion(e, 0, |e| - 1, N_FUN, addr))
  {
    hide LinearRegion, Flat, LastHead, SectionAt, BeforeSection, Within, Blocks, Ascending, Heads;
    assert (f.funs != []) == (f.FunBlocks() != []) by {
      assert |f.funs| == |f.FunBlocks()|;
    }
    BlockFound(f.Lead(), f.FunBlocks(), FunHeads(f), f.funs != [], N_FUN, addr);
  }

  lemma LineSearch(section: seq<Stab>, a: uint32)
    requires section != [] && section[0].typ != N_SLINE
    ensures var g := LinearRegion(section, 0, |section| - 1, N_SLINE, a);
            var k := LineEntry(section, a);
            && (g.left <= g.right <==> 0 <= k)
            && (0 <= k ==> g.left == k)
  {
    NoneBeforeFirst(section, 0, |section| - 1, N_SLINE, -1);
  }

  /** `fun` brackets the section, preceded by `before`, in the file bracketed by `g`; or the file has no functions. */
  ghost predicate AtSection(stabs: seq<Stab>, g: Region, section: seq<Stab>, before: seq<Stab>, isFun: bool,
                            fun: Region)
    requires InTable(stabs, g.left, g.right)
  {
    if isFun then
      g.left <= fun.left <= fun.right <= g.right && Slice(stabs, fun) == section && stabs[g.left..fun.left] == before
    else
      fun == Region(g.left, g.left - 1) && Slice(stabs, g) == section && before == []
  }

  lemma ShiftSection(stabs: seq<Stab>, g: Region, e: seq<Stab>, section: seq<Stab>, before: seq<Stab>, isFun: bool,
                     h: Region)
    requires InTable(stabs, g.left, g.right) && Slice(stabs, g) == e
    requires Within(e, section, before, isFun, h)
    ensures AtSection(stabs, g, section, before, isFun, Shift(h, g.left))
  {
    if isFun {
      SliceSlice(stabs, g.left, g.right + 1, h.left, h.right + 1);
      SliceSlice(stabs, g.left, g.right + 1, 0, h.left);
    }
  }

  /** The function search in the table, from the one in the file's own entries. */
  lemma FunRegion(stabs: seq<Stab>, addr: uint32, g: Region, e: seq<Stab>, section: seq<Stab>, before: seq<Stab>,
                  isFun: bool)
    returns (fun: Region)
    requires InTable(stabs, g.left, g.right) && Slice(stabs, g) == e
    requires Within(e, section, before, isFun, LinearRegion(e, 0, |e| - 1, N_FUN, addr))
    ensures fun == LinearRegion(stabs, g.left, g.right, N_FUN, addr)
    ensures AtSection(stabs, g, section, before, isFun, fun)
  {
    RegionShift(stabs, g, e, N_FUN, addr);
    ShiftSection(stabs, g, e, section, before, isFun, LinearRegion(e, 0, |e| - 1, N_FUN, addr));
    fun := LinearRegion(stabs, g.left, g.right, N_FUN, addr);
  }

  /** Where the lines of the section are in the table. */
  function LineRegion(isFun: bool, g: Region, fun: Region): Region {
    if isFun then fun else g
  }

  /** After the function search the lookup is left with the section. */
  lemma ScopeSection(stabs: seq<Stab>, strings: string, addr: uint32, g: Region, f: File, fun: Region)
    requires InTable(stabs, g.left, g.right)
    requires AtSection(stabs, g, SectionOf(f, addr), Before(f, addr), f.funs != [], fun)
    ensures ScopeOf(stabs, strings, addr, g, fun) ==
            Scope(FunInfo(f, strings, addr), LineRegion(f.funs != [], g, fun), LineAddress(f, addr))
  {
    var section := SectionOf(f, addr);
    if f.funs != [] {
      assert stabs[fun.left] == section[0];
    }
  }

  lemma SectionHead(f: File, addr: uint32)
    requires GoodFile(f)
    ensures SectionOf(f, addr)[0].typ != N_SLINE
  {
    if 0 <= LastHead(FunHeads(f), addr) {
      assert GoodFunc(f.funs[LastHead(FunHeads(f), addr)]);
    }
  }

  /** `line` brackets entry `k` of the section at `r`, or is empty. */
  ghost predicate AtLine(k: int, r: Region, line: Region) {
    (line.left <= line.right <==> 0 <= k) && (0 <= k ==> line.left == r.left + k)
  }

  /** The line search in the table, from the one in the section alone. */
  lemma SectionLine(stabs: seq<Stab>, section: seq<Stab>, a: uint32, r: Region) returns (line: Region)
    requires InTable(stabs, r.left, r.right) && Slice(stabs, r) == section
    requires section != [] && section[0].typ != N_SLINE
    ensures line == LinearRegion(stabs, r.left, r.right, N_SLINE, a)
    ensures AtLine(LineEntry(section, a), r, line)
  {
    RegionShift(stabs, r, section, N_SLINE, a);
    LineSearch(section, a);
    line := Shift(LinearRegion(section, 0, |section| - 1, N_SLINE, a), r.left);
  }

  lemma SectionSource(stabs: seq<Stab>, strings: string, g: Region, r: Region, k: nat, before: seq<Stab>,
                      section: seq<Stab>)
    requires InTable(stabs, g.left, g.right) && g.left <= r.left && r.left + k <= r.right <= g.right
    requires stabs[g.left..r.left] == before && Slice(stabs, r) == section
    ensures LastSource(before + section[..k + 1], strings) ==
            var src := SourceAt(stabs, r.left + k, g.left);
            if g.left <= src then NameAt(strings, stabs[src].strx, UNKNOWN) else UNKNOWN
  {
    assert stabs[g.left..r.left + k + 1] == before + section[..k + 1];
    SourceShift(stabs, strings, r.left + k, g.left);
  }

  lemma SectionArgs(stabs: seq<Stab>, g: Region, section: seq<Stab>, before: seq<Stab>, isFun: bool, fun: Region)
    requires InTable(stabs, g.left, g.right) && AtSection(stabs, g, section, before, isFun, fun) && section != []
    ensures ArgRun(stabs, fun.left + 1, fun.right) == if isFun then ArgRun(section, 1, |section| - 1) else 0
  {
    if isFun {
      ArgShift(stabs, fun, 1, |section| - 1);
    }
  }

  /** With the two regions found, the rest of the lookup is what the structure says. */
  lemma SectionLookup(stabs: seq<Stab>, strings: string, info: Info, g: Region, section: seq<Stab>, before: seq<Stab>,
                      isFun: bool, fun: Region, k: int, line: Region)
    requires InTable(stabs, g.left, g.right) && 0 < g.left
    requires AtSection(stabs, g, section, before, isFun, fun)
    requires -1 <= k < |section| && AtLine(k, LineRegion(isFun, g, fun), line)
    requires g.left - 1 <= line.left <= line.right + 1 && line.right <= g.right
    ensures LineOf(stabs, strings, info, g, fun, line) == AtLineEntry(info, strings, section, before, isFun, k)
  {
    hide SourceAt, LastSource, NameAt, ArgRun, IsSource;
    var r := LineRegion(isFun, g, fun);
    if 0 <= k {
      assert stabs[line.left].desc == section[k].desc;
      SectionArgs(stabs, g, section, before, isFun, fun);
      SectionSource(stabs, strings, g, r, k, before, section);
    }
  }

  /** Within the file the scans find what the structure says. */
  lemma InFile(stabs: seq<Stab>, strings: string, addr: uint32, g: Region, f: File)
    requires InTable(stabs, g.left, g.right) && 0 < g.left && Slice(stabs, g) == f.Entries()
    requires Blocks(f.Lead(), f.FunBlocks(), N_FUN) && Ascending(FunHeads(f))
    requires SectionOf(f, addr)[0].typ != N_SLINE
    ensures LookupInFile(Linear, stabs, strings, addr, g) == StructInFile(f, strings, addr)
  {
    hide LinearRegion, SectionOf, Before, LineEntry, AtLineEntry, LineOf, LastHead;
    var section, a := SectionOf(f, addr), LineAddress(f, addr);
    FunSearch(f, addr);
    var fun := FunRegion(stabs, addr, g, f.Entries(), section, Before(f, addr), f.funs != []);
    ScopeSection(stabs, strings, addr, g, f, fun);
    var line := SectionLine(stabs, section, a, LineRegion(f.funs != [], g, fun));
    SectionLookup(stabs, strings, FunInfo(f, strings, addr), g, section, Before(f, addr), f.funs != [],
                  fun, LineEntry(section, a), line);
  }

  /** The nested linear scans of the flattened table are the lookup on the structure. */
  lemma LinearIsStruct(header: Stab, files: seq<File>, strings: string, addr: uint32)
    requires GoodTable(header, files)
    ensures Lookup(Linear, Table(header, files), strings, addr) == StructLookup(files, strings, addr)
  {
    hide LinearRegion, LookupInFile, StructInFile, SectionOf, Table;
    var t := Table(header, files);
    var i := LastHead(FileHeads(files), addr);
    TableBlocks(header, files);
    var g := FileSearch(header, files, addr);
    if 0 <= i {
      FunBlocksGood(files[i]);
      SectionHead(files[i], addr);
      InFile(t, strings, addr, g, files[i]);
    }
  }

  /** The table does not hold both `a` and `a + 1` for this type; and nothing at the highest address, if that is `a`. */
  ghost predicate Clear(s: seq<Stab>, typ: int, a: uint32) {
    !Has(s, 0, |s| - 1, typ, a) || (a < MAX && !Has(s, 0, |s| - 1, typ, a + 1))
  }

  lemma ClearBlocks(lead: seq<Stab>, bs: seq<seq<Stab>>, typ: int, a: uint32)
    requires Blocks(lead, bs, typ) && Clear(Heads(bs), typ, a)
    ensures Clear(lead + Flat(bs), typ, a)
  {
    var w := lead + Flat(bs);
    forall i | 0 <= i < |w| && w[i].typ == typ
      ensures exists j :: 0 <= j < |bs| && Heads(bs)[j] == w[i]
    {
      var j := HeadAt(lead, bs, typ, i);
      assert Heads(bs)[j] == w[i];
    }
  }

  /** On such a slice the program's search is the linear scan. */
  lemma ClearRegion(stabs: seq<Stab>, g: Region, w: seq<Stab>, typ: int, a: uint32)
    requires InTable(stabs, g.left, g.right) && Slice(stabs, g) == w
    requires Sorted(w, 0, |w| - 1, typ) && Clear(w, typ, a)
    ensures Find(Binary, stabs, g, typ, a) == Find(Linear, stabs, g, typ, a)
  {
    SortedShift(stabs, g, typ);
    SliceAt(stabs, g);
    NoNeighbourNoOvershoot(stabs, typ, Start(g.left, g.right, a));
    BinaryIsLinear(stabs, g.left, g.right, typ, a);
  }

  ghost predicate ClearFile(f: File, addr: uint32) {
    && Clear(FunHeads(f), N_FUN, addr)
    && Clear(SectionOf(f, addr), N_SLINE, LineAddress(f, addr))
  }

  lemma SectionSorted(f: File, addr: uint32)
    requires GoodFile(f)
    ensures var s := SectionOf(f, addr); Sorted(s, 0, |s| - 1, N_SLINE)
  {
    if 0 <= LastHead(FunHeads(f), addr) {
      assert GoodFunc(f.funs[LastHead(FunHeads(f), addr)]);
    }
  }

  lemma FunSearchAgrees(stabs: seq<Stab>, addr: uint32, g: Region, f: File)
    requires InTable(stabs, g.left, g.right) && Slice(stabs, g) == f.Entries()
    requires Blocks(f.Lead(), f.FunBlocks(), N_FUN) && Ascending(FunHeads(f))
    requires Clear(FunHeads(f), N_FUN, addr)
    ensures Find(Binary, stabs, g, N_FUN, addr) == Find(Linear, stabs, g, N_FUN, addr)
  {
    HeadsSorted(f.Lead(), f.FunBlocks(), N_FUN);
    ClearBlocks(f.Lead(), f.FunBlocks(), N_FUN, addr);
    ClearRegion(stabs, g, f.Entries(), N_FUN, addr);
  }

  lemma LineSearchAgrees(stabs: seq<Stab>, g: Region, section: seq<Stab>, before: seq<Stab>, isFun: bool, fun: Region,
                         a: uint32)
    requires InTable(stabs, g.left, g.right) && AtSection(stabs, g, section, before, isFun, fun)
    requires Sorted(section, 0, |section| - 1, N_SLINE) && Clear(section, N_SLINE, a)
    ensures var r := LineRegion(isFun, g, fun); Find(Binary, stabs, r, N_SLINE, a) == Find(Linear, stabs, r, N_SLINE, a)
  {
    ClearRegion(stabs, LineRegion(isFun, g, fun), section, N_SLINE, a);
  }

  /** The same for the program's own searches within the file. */
  lemma BinaryInFile(stabs: seq<Stab>, strings: string, addr: uint32, g: Region, f: File)
    requires InTable(stabs, g.left, g.right) && 0 < g.left && Slice(stabs, g) == f.Entries()
    requires Blocks(f.Lead(), f.FunBlocks(), N_FUN) && Ascending(FunHeads(f))
    requires ClearFile(f, addr)
    requires var s := SectionOf(f, addr); Sorted(s, 0, |s| - 1, N_SLINE)
    ensures LookupInFile(Binary, stabs, strings, addr, g) == LookupInFile(Linear, stabs, strings, addr, g)
  {
    hide LinearRegion, BinaryRegion, SectionOf, Before, LastHead;
    var section := SectionOf(f, addr);
    FunSearch(f, addr);
    var fun := FunRegion(stabs, addr, g, f.Entries(), section, Before(f, addr), f.funs != []);
    FunSearchAgrees(stabs, addr, g, f);
    ScopeSection(stabs, strings, addr, g, f, fun);
    LineSearchAgrees(stabs, g, section, Before(f, addr), f.funs != [], fun, LineAddress(f, addr));
  }

  lemma FileSearchAgrees(header: Stab, files: seq<File>, addr: uint32)
    requires Blocks([header], FileBlocks(files), N_SO) && Ascending(FileHeads(files))
    requires Clear(FileHeads(files), N_SO, addr)
    ensures var t := Table(header, files);
            Find(Binary, t, Region(0, |t| - 1), N_SO, addr) == Find(Linear, t, Region(0, |t| - 1), N_SO, addr)
  {
    var t := Table(header, files);
    HeadsSorted([header], FileBlocks(files), N_SO);
    ClearBlocks([header], FileBlocks(files), N_SO, addr);
    ClearRegion(t, Region(0, |t| - 1), t, N_SO, addr);
  }

  lemma LookupAgrees(stabs: seq<Stab>, strings: string, addr: uint32)
    requires var g := Find(Linear, stabs, Region(0, |stabs| - 1), N_SO, addr);
             && Find(Binary, stabs, Region(0, |stabs| - 1), N_SO, addr) == g
             && (0 < g.left ==>
                   LookupInFile(Binary, stabs, strings, addr, g) == LookupInFile(Linear, stabs, strings, addr, g))
    ensures Lookup(Binary, stabs, strings, addr) == Lookup(Linear, stabs, strings, addr)
  {
  }

  /**
   * `debuginfo_eip` on a table written by a compiler is the lookup on the structure,
   * for every address that has no neighbour one above it where it is looked up.
   */
  lemma EndToEnd(header: Stab, files: seq<File>, strings: string, addr: uint32)
    requires GoodTable(header, files)
    requires Clear(FileHeads(files), N_SO, addr)
    requires var i := LastHead(FileHeads(files), addr); 0 <= i ==> ClearFile(files[i], addr)
    ensures Lookup(Binary, Table(header, files), strings, addr) == StructLookup(files, strings, addr)
  {
    hide Lookup, StructLookup, Table, ClearFile, LastHead, LinearRegion, LookupInFile, SectionOf;
    var t := Table(header, files);
    var i := LastHead(FileHeads(files), addr);
    LinearIsStruct(header, files, strings, addr);
    TableBlocks(header, files);
    FileSearchAgrees(header, files, addr);
    var g := FileSearch(header, files, addr);
    if 0 <= i {
      FunBlocksGood(files[i]);
      SectionSorted(files[i], addr);
      BinaryInFile(t, strings, addr, g, files[i]);
    }
    LookupAgrees(t, strings, addr);
  }

  /**
   * The function that is reported for an address: the last one of its file at or below the
   * address.  When all of them start above it, it is taken to be in a function that has the
   * file's name and starts where the file does; when there are none, at the address itself.
   */
  lemma FunctionReported(header: Stab, files: seq<File>, strings: string, addr: uint32)
    requires GoodTable(header, files) && ULIM <= addr && Usable(strings)
    requires Clear(FileHeads(files), N_SO, addr)
    requires var i := LastHead(FileHeads(files), addr); 0 <= i && ClearFile(files[i], addr)
    ensures var f := files[LastHead(FileHeads(files), addr)];
            var k := LastHead(FunHeads(f), addr);
            var info := Lookup(Binary, Table(header, files), strings, addr).1;
            && (k < 0 <==> forall j | 0 <= j < |f.funs| :: addr < f.funs[j].head.value)
            && (k < 0 && f.funs != [] ==>
                  info.fnName == NameAt(strings, f.head.strx, UNKNOWN) && info.fnAddr == f.head.value)
            && (f.funs == [] ==> info.fnName == UNKNOWN && info.fnAddr == addr)
            && (0 <= k ==>
                  && info.fnName == NameAt(strings, f.funs[k].head.strx, UNKNOWN)
                  && info.fnAddr == f.funs[k].head.value <= addr)
  {
    hide Lookup, Table, ClearFile, Clear, NameAt, LastSource, ArgRun, LineEntry, GoodTable, Ascending;
    var f := files[LastHead(FileHeads(files), addr)];
    EndToEnd(header, files, strings, addr);
    forall j | 0 <= j < |f.funs|
      ensures FunHeads(f)[j] == f.funs[j].head
    {
    }
  }
}
