/** What `debuginfo_eip` reports for an address, field by field, read off the files, functions and entries. */
module SymbolReport {
  import opened CStrings
  import opened Int32
  import opened Stabs
  import opened StabBlocks
  import opened StabSearch
  import opened Debuginfo
  import opened SymbolTable

  /** Subtracting an address undoes adding it, around the whole range. */
  lemma RelativeIs(addr: uint32, base: uint32)
    ensures (base + Relative(addr, base)) % RANGE32 == addr
    ensures base <= addr ==> base + Relative(addr, base) == addr
  {
  }

  /** A string in the string table, from its index on. */
  lemma {:induction false} NameIs(strings: string, i: nat, name: string)
    requires i + |name| < |strings| && strings[i..i + |name|] == name && '\0' !in name && strings[i + |name|] == '\0'
    ensures CString(strings, i) == name
    decreases |name|
  {
    if name != "" {
      assert strings[i] == strings[i..i + |name|][0] == name[0];
      assert strings[i + 1..i + 1 + |name[1..]|] == strings[i..i + |name|][1..] == name[1..];
      NameIs(strings, i + 1, name[1..]);
    }
  }

  /** A function of the file, or for -1 the file's own entry with what precedes the first function. */
  function Holder(f: File, k: int): Func
    requires -1 <= k < |f.funs|
  {
    if k < 0 then Func(f.head, f.prelude) else f.funs[k]
  }

  /** What precedes that in the file. */
  function Preceding(f: File, k: int): seq<Stab>
    requires -1 <= k < |f.funs|
  {
    if k < 0 then [] else f.Lead() + Flat(f.FunBlocks()[..k])
  }

  /** The address that the file's lines there count from. */
  function Base(f: File, k: int): uint32
    requires -1 <= k < |f.funs|
  {
    if f.funs == [] then 0 else Holder(f, k).head.value
  }

  /** The last file, and in it the last function, at or below the address. */
  function FileOf(files: seq<File>, addr: uint32): (i: int)
    ensures -1 <= i < |files|
  {
    LastHead(FileHeads(files), addr)
  }

  function FunOf(f: File, addr: uint32): (k: int)
    ensures -1 <= k < |f.funs|
  {
    LastHead(FunHeads(f), addr)
  }

  /** A well-formed table in which the address is looked up within a file, with no neighbour one above it. */
  ghost predicate LookedUp(header: Stab, files: seq<File>, strings: string, addr: uint32) {
    && GoodTable(header, files) && ULIM <= addr && Usable(strings)
    && Clear(FileHeads(files), N_SO, addr)
    && 0 <= FileOf(files, addr) && ClearFile(files[FileOf(files, addr)], addr)
  }

  /** What the lookup gives, once the number of the line entry is known. */
  ghost function Reported(f: File, strings: string, addr: uint32, line: int): (Outcome, Info)
    requires -1 <= line < |Holder(f, FunOf(f, addr)).Entries()|
  {
    AtLineEntry(FunInfo(f, strings, addr), strings, Holder(f, FunOf(f, addr)).Entries(),
                Preceding(f, FunOf(f, addr)), f.funs != [], line)
  }

  lemma ReportedIs(header: Stab, files: seq<File>, strings: string, addr: uint32)
    requires LookedUp(header, files, strings, addr)
    ensures 0 <= FileOf(files, addr)
    ensures var f := files[FileOf(files, addr)];
            var section := Holder(f, FunOf(f, addr)).Entries();
            && section[0].typ != N_SLINE
            && Base(f, FunOf(f, addr)) + LineAddress(f, addr) == addr
            && Lookup(Binary, Table(header, files), strings, addr) ==
               Reported(f, strings, addr, LineEntry(section, LineAddress(f, addr)))
  {
    hide Lookup, Table, ClearFile, Clear, LineEntry, AtLineEntry, FunInfo, Flat, Usable, GoodTable;
    var f := files[FileOf(files, addr)];
    EndToEnd(header, files, strings, addr);
    SectionIs(f, addr);
    FileGood(header, files, FileOf(files, addr));
    SectionHead(f, addr);
    assert FileHeads(files)[FileOf(files, addr)] == f.head;
  }

  lemma FileGood(header: Stab, files: seq<File>, i: nat)
    requires GoodTable(header, files) && i < |files|
    ensures GoodFile(files[i])
  {
  }

  lemma SectionIs(f: File, addr: uint32)
    ensures var k := FunOf(f, addr);
            && SectionOf(f, addr) == Holder(f, k).Entries() && Before(f, addr) == Preceding(f, k)
            && (0 <= k ==> f.funs[k].head.value <= addr)
  {
    hide Flat;
    var k := FunOf(f, addr);
    if 0 <= k {
      assert FunHeads(f)[k] == f.funs[k].head;
      assert f.FunBlocks()[k] == f.funs[k].Entries();
    }
  }

  /** `e` is an entry for a line whose code starts at or below `addr`, when offsets count from `base`. */
  predicate LineBelow(e: Stab, base: int, addr: int) {
    e.typ == N_SLINE && base + e.value <= addr
  }

  /** The line entry found is characterised by what is said of the entries alone. */
  lemma LineEntryIs(h: Func, base: int, a: int, j: nat)
    requires j < |h.body| && LineBelow(h.body[j], base, base + a)
    requires forall m | j < m < |h.body| :: !LineBelow(h.body[m], base, base + a)
    ensures LineEntry(h.Entries(), a) == j + 1
  {
    var s := h.Entries();
    NoneAfterLast(s, 0, |s| - 1, N_SLINE, a);
    var k := LastAtMost(s, 0, |s| - 1, N_SLINE, a);
    assert s[j + 1] == h.body[j];
    assert forall i | j + 1 < i < |s| :: s[i] == h.body[i - 1];
  }

  lemma NoLineEntry(h: Func, base: int, a: int)
    requires h.head.typ != N_SLINE
    requires forall m | 0 <= m < |h.body| :: !LineBelow(h.body[m], base, base + a)
    ensures LineEntry(h.Entries(), a) == if exists e :: e in h.body && e.typ == N_SLINE then 0 else -1
  {
    var s := h.Entries();
    var k := LastAtMost(s, 0, |s| - 1, N_SLINE, a);
    assert forall i | 1 <= i < |s| :: s[i] == h.body[i - 1];
    NoneBeforeFirst(s, 0, |s| - 1, N_SLINE, -1);
    var first := FirstAbove(s, 0, |s| - 1, N_SLINE, -1);
    if first < |s| {
      assert s[first] == h.body[first - 1] && s[first] in h.body;
    } else {
      forall e | e in h.body
        ensures e.typ != N_SLINE
      {
        var m :| 0 <= m < |h.body| && h.body[m] == e;
        assert s[m + 1] == e;
      }
    }
  }

  /**
   * The line reported is that of the last line entry, in the function (or else in what precedes the first one), whose
   * offset from the function's start (or else the file's, or 0 in a file without functions) leads to the address
   * or below it.
   */
  lemma LineReported(header: Stab, files: seq<File>, strings: string, addr: uint32, j: nat)
    requires LookedUp(header, files, strings, addr)
    requires var f := files[FileOf(files, addr)];
             var h, base := Holder(f, FunOf(f, addr)), Base(f, FunOf(f, addr));
             && j < |h.body| && LineBelow(h.body[j], base, addr)
             && forall m | j < m < |h.body| :: !LineBelow(h.body[m], base, addr)
    ensures var f := files[FileOf(files, addr)];
            var r := Lookup(Binary, Table(header, files), strings, addr);
            r.0 == Success && r.1.line == Holder(f, FunOf(f, addr)).body[j].desc
  {
    hide Lookup, Table, LookedUp, LineEntry, FunInfo, Flat, LineAddress, Base, LineBelow, LastSource, ArgRun, FunOf,
      FileOf;
    ReportedIs(header, files, strings, addr);
    var f := files[FileOf(files, addr)];
    LineEntryIs(Holder(f, FunOf(f, addr)), Base(f, FunOf(f, addr)), LineAddress(f, addr), j);
  }

  /**
   * Without a line at or below the address, the entry that the lines belong to stands in; without lines there is an
   * error.
   */
  lemma NoLineReported(header: Stab, files: seq<File>, strings: string, addr: uint32)
    requires LookedUp(header, files, strings, addr)
    requires var f := files[FileOf(files, addr)];
             var h, base := Holder(f, FunOf(f, addr)), Base(f, FunOf(f, addr));
             forall m | 0 <= m < |h.body| :: !LineBelow(h.body[m], base, addr)
    ensures var f := files[FileOf(files, addr)];
            var h := Holder(f, FunOf(f, addr));
            var r := Lookup(Binary, Table(header, files), strings, addr);
            if exists e :: e in h.body && e.typ == N_SLINE then r.0 == Success && r.1.line == h.head.desc
            else r.0 == NotFound
  {
    hide Lookup, Table, LookedUp, LineEntry, FunInfo, Flat, LineAddress, Base, LineBelow, LastSource, ArgRun, FunOf,
      FileOf;
    ReportedIs(header, files, strings, addr);
    var f := files[FileOf(files, addr)];
    NoLineEntry(Holder(f, FunOf(f, addr)), Base(f, FunOf(f, addr)), LineAddress(f, addr));
  }

  /** An entry for an included file, or for a file with an address. */
  predicate NamesSource(e: Stab) { e.typ == N_SOL || (e.typ == N_SO && e.value != 0) }

  lemma {:induction false} LastSourceIs(s: seq<Stab>, strings: string, p: int)
    requires -1 <= p < |s| && (0 <= p ==> NamesSource(s[p])) && forall m | p < m < |s| :: !NamesSource(s[m])
    ensures LastSource(s, strings) == if p < 0 then UNKNOWN else NameAt(strings, s[p].strx, UNKNOWN)
    decreases |s|
  {
    hide NameAt;
    if s != [] && p < |s| - 1 {
      LastSourceIs(s[..|s| - 1], strings, p);
    }
  }

  /** The source file reported is named by the last entry before the line's that names one; `p` is its place, or -1. */
  lemma SourceReported(header: Stab, files: seq<File>, strings: string, addr: uint32, j: nat, p: int)
    requires LookedUp(header, files, strings, addr)
    requires var f := files[FileOf(files, addr)];
             var k := FunOf(f, addr);
             var h, base := Holder(f, k), Base(f, k);
             && j < |h.body| && LineBelow(h.body[j], base, addr)
             && (forall m | j < m < |h.body| :: !LineBelow(h.body[m], base, addr))
             && var s := Preceding(f, k) + [h.head] + h.body[..j + 1];
                && -1 <= p < |s| && (0 <= p ==> NamesSource(s[p]))
                && forall m | p < m < |s| :: !NamesSource(s[m])
    ensures var f := files[FileOf(files, addr)];
            var k := FunOf(f, addr);
            var s := Preceding(f, k) + [Holder(f, k).head] + Holder(f, k).body[..j + 1];
            Lookup(Binary, Table(header, files), strings, addr).1.file ==
            if p < 0 then UNKNOWN else NameAt(strings, s[p].strx, UNKNOWN)
  {
    hide Lookup, Table, LookedUp, LineEntry, FunInfo, Flat, LineAddress, Base, LineBelow, LastSource, ArgRun, FunOf,
      FileOf, NameAt, NamesSource, Preceding;
    ReportedIs(header, files, strings, addr);
    var f := files[FileOf(files, addr)];
    var k := FunOf(f, addr);
    var h := Holder(f, k);
    LineEntryIs(h, Base(f, k), LineAddress(f, addr), j);
    var s := Preceding(f, k) + [h.head] + h.body[..j + 1];
    assert Preceding(f, k) + h.Entries()[..j + 2] == s;
    LastSourceIs(s, strings, p);
  }

  lemma {:induction false} ArgRunIs(s: seq<Stab>, i: nat, stop: int, n: nat)
    requires stop <= |s| && (n == 0 || i + n <= stop) && (forall m | i <= m < i + n :: s[m].typ == N_PSYM)
    requires i + n < stop ==> s[i + n].typ != N_PSYM
    ensures ArgRun(s, i, stop) == n
    decreases n
  {
    if 0 < n {
      ArgRunIs(s, i + 1, stop, n - 1);
    }
  }

  /**
   * The number of arguments is the length of the run of parameters right after the function's entry, of which the
   * last entry of the function is not looked at.
   */
  lemma ArgsReported(header: Stab, files: seq<File>, strings: string, addr: uint32, n: nat)
    requires LookedUp(header, files, strings, addr)
    requires Lookup(Binary, Table(header, files), strings, addr).0 == Success
    requires var f := files[FileOf(files, addr)];
             var b := Holder(f, FunOf(f, addr)).body;
             && f.funs != [] && (n == 0 || n < |b|) && (forall m | 0 <= m < n :: b[m].typ == N_PSYM)
             && (n < |b| - 1 ==> b[n].typ != N_PSYM)
    ensures Lookup(Binary, Table(header, files), strings, addr).1.fnNarg == n
  {
    hide Lookup, Table, LookedUp, LineEntry, FunInfo, Flat, LineAddress, Base, LastSource, FunOf, FileOf;
    ReportedIs(header, files, strings, addr);
    var f := files[FileOf(files, addr)];
    var h := Holder(f, FunOf(f, addr));
    ArgRunIs(h.Entries(), 1, |h.Entries()| - 1, n);
  }

  /** The name's length leaves out what follows its first colon. */
  lemma NameLengthReported(header: Stab, files: seq<File>, strings: string, addr: uint32)
    requires LookedUp(header, files, strings, addr)
    ensures var info := Lookup(Binary, Table(header, files), strings, addr).1;
            var n := info.fnNamelen;
            && n <= |info.fnName| && ':' !in info.fnName[..n]
            && (n < |info.fnName| <==> ':' in info.fnName) && (n < |info.fnName| ==> info.fnName[n] == ':')
  {
    hide Lookup, Table, LookedUp, LineEntry, Flat, LineAddress, Base, LastSource, FunOf, FileOf, NameAt, IndexOf;
    ReportedIs(header, files, strings, addr);
    IndexOfFirst(Lookup(Binary, Table(header, files), strings, addr).1.fnName, ':');
  }
}
