/** The debug-symbol table of the kernel and what a plain linear scan of it finds. */
module Stabs {

  import opened Int32

  const N_FUN: int := 0x24
  const N_SLINE: int := 0x44
  const N_SO: int := 0x64
  const N_SOL: int := 0x84
  const N_PSYM: int := 0xa0

  /** One table entry; the `n_other` byte is never read. */
  datatype Stab = Stab(strx: uint32, typ: int, desc: int, value: uint32)

  /** A bracket around an address, as the search leaves it in its caller's two variables. */
  datatype Region = Region(left: int, right: int)

  ghost predicate InTable(stabs: seq<Stab>, l: int, r: int) {
    0 <= l <= r + 1 <= |stabs|
  }

  /** The entries of type `typ` in [l, r] are arranged in nondecreasing order by address. */
  ghost predicate Sorted(stabs: seq<Stab>, l: int, r: int, typ: int)
    requires InTable(stabs, l, r)
  {
    forall i, j | l <= i < j <= r && stabs[i].typ == typ && stabs[j].typ == typ ::
      stabs[i].value <= stabs[j].value
  }

  ghost predicate Has(stabs: seq<Stab>, l: int, r: int, typ: int, a: int)
    requires InTable(stabs, l, r)
  {
    exists i :: l <= i <= r && stabs[i].typ == typ && stabs[i].value == a
  }

  /** The last entry of type `typ` in [l, r] at or below `a`, or l - 1. */
  function LastAtMost(stabs: seq<Stab>, l: int, r: int, typ: int, a: int): (k: int)
    requires InTable(stabs, l, r)
    ensures l - 1 <= k <= r
    ensures l <= k ==> stabs[k].typ == typ && stabs[k].value <= a
    decreases r - l + 1
  {
    if r < l then l - 1
    else if stabs[r].typ == typ && stabs[r].value <= a then r
    else LastAtMost(stabs, l, r - 1, typ, a)
  }

  lemma {:induction false} NoneAfterLast(stabs: seq<Stab>, l: int, r: int, typ: int, a: int)
    requires InTable(stabs, l, r)
    ensures forall i | LastAtMost(stabs, l, r, typ, a) < i <= r && stabs[i].typ == typ :: a < stabs[i].value
    decreases r - l + 1
  {
    if l <= r && !(stabs[r].typ == typ && stabs[r].value <= a) {
      NoneAfterLast(stabs, l, r - 1, typ, a);
    }
  }

  /** The first entry of type `typ` in [l, r] above `a`, or r + 1. */
  function FirstAbove(stabs: seq<Stab>, l: int, r: int, typ: int, a: int): (k: int)
    requires InTable(stabs, l, r)
    ensures l <= k <= r + 1
    ensures k <= r ==> stabs[k].typ == typ && a < stabs[k].value
    decreases r - l + 1
  {
    if r < l then l
    else if stabs[l].typ == typ && a < stabs[l].value then l
    else FirstAbove(stabs, l + 1, r, typ, a)
  }

  lemma {:induction false} NoneBeforeFirst(stabs: seq<Stab>, l: int, r: int, typ: int, a: int)
    requires InTable(stabs, l, r)
    ensures forall i | l <= i < FirstAbove(stabs, l, r, typ, a) && stabs[i].typ == typ :: stabs[i].value <= a
    decreases r - l + 1
  {
    if l <= r && !(stabs[l].typ == typ && a < stabs[l].value) {
      NoneBeforeFirst(stabs, l + 1, r, typ, a);
    }
  }

  /**
   * The bracket a linear scan of [l, r] finds.  With no entry of the type at all
   * it is empty.  When all of them lie above `a` it ends just before the first
   * one and its left end is not an entry of the type.
   */
  function LinearRegion(stabs: seq<Stab>, l: int, r: int, typ: int, a: uint32): (g: Region)
    requires InTable(stabs, l, r)
    ensures l - 1 <= g.left <= g.right + 1 && g.right <= r
    ensures g.left < l ==> g.right == l - 1
  {
    var first := FirstAbove(stabs, l, r, typ, -1);
    var last := LastAtMost(stabs, l, r, typ, a);
    if first > r then Region(l, l - 1)
    else if last < l then Region(if l < first then l else first - 1, first - 1)
    else Region(last, FirstAbove(stabs, last + 1, r, typ, a) - 1)
  }
}
