/**
 * `stab_binsearch`: a binary search over a table in which only the entries of
 * one type are sorted.  After an exact hit it goes on looking for the address
 * one higher, which is where it can go wrong.
 */
module StabSearch {
  import opened Int32
  import opened Stabs

  const MAX: int := 0xFFFF_FFFF

  /** `addr++` on 32 bits. */
  function Increment(a: uint32): uint32 {
    if a == MAX then 0 else a + 1
  }

  function Middle(l: int, r: int): (m: int)
    requires 0 <= l <= r
    ensures l <= m <= r && m - l <= r - m <= m - l + 1
  {
    (l + r) / 2
  }

  /** The nearest entry of type `typ` at or below `m`, walking back no further than `l`; l - 1 if there is none. */
  function WalkBack(stabs: seq<Stab>, l: int, m: int, typ: int): (k: int)
    requires 0 <= l <= m + 1 <= |stabs|
    ensures l - 1 <= k <= m
    ensures l <= k ==> stabs[k].typ == typ
    ensures forall i | k < i <= m :: stabs[i].typ != typ
    decreases m - l + 1
  {
    if m < l || stabs[m].typ == typ then m else WalkBack(stabs, l, m - 1, typ)
  }

  /** The variables of the main loop: the window [l, r], `addr`, and the region found so far. */
  datatype Scan = Scan(l: int, r: int, addr: uint32, left: int, right: int, any: bool)

  ghost predicate Ok(stabs: seq<Stab>, s: Scan) {
    InTable(stabs, s.l, s.r) && s.right == s.r && -1 <= s.left
  }

  predicate Hit(stabs: seq<Stab>, typ: int, s: Scan)
    requires InTable(stabs, s.l, s.r)
  {
    s.l <= s.r && var m := WalkBack(stabs, s.l, Middle(s.l, s.r), typ); s.l <= m && stabs[m].value == s.addr
  }

  /** One turn of the main loop. */
  function Step(stabs: seq<Stab>, typ: int, s: Scan): (t: Scan)
    requires InTable(stabs, s.l, s.r) && s.l <= s.r
    ensures InTable(stabs, t.l, t.r) && s.l <= t.l && t.r <= s.r
    ensures Ok(stabs, s) ==> Ok(stabs, t)
    ensures t.r - t.l < s.r - s.l || (t.r - t.l == s.r - s.l && Hit(stabs, typ, s) && !Hit(stabs, typ, t))
  {
    var trueM := Middle(s.l, s.r);
    var m := WalkBack(stabs, s.l, trueM, typ);
    if m < s.l then s.(l := trueM + 1)
    else if stabs[m].value < s.addr then s.(l := trueM + 1, left := m, any := true)
    else if stabs[m].value > s.addr then s.(r := m - 1, right := m - 1, any := true)
    else s.(l := m, addr := Increment(s.addr), left := m, any := true)
  }

  /**
   * The main loop.  An exact hit may leave the window as it was, but the next
   * probe is then the same entry and no longer a hit.
   */
  function Run(stabs: seq<Stab>, typ: int, s: Scan): (t: Scan)
    requires InTable(stabs, s.l, s.r)
    decreases s.r - s.l, if Hit(stabs, typ, s) then 1 else 0
  {
    if s.r < s.l then s else Run(stabs, typ, Step(stabs, typ, s))
  }

  /** The closing scan: down from `right` to an entry of the type, but not below `left`. */
  function ScanDown(stabs: seq<Stab>, right: int, left: int, typ: int): (k: int)
    requires right < |stabs| && 0 <= left + 1
    ensures k <= right
    ensures right <= left ==> k == right
    ensures left < right ==> left <= k && (forall i | k < i <= right :: stabs[i].typ != typ)
    ensures left < k ==> stabs[k].typ == typ || right <= left
    decreases right - left
  {
    if left < right && stabs[right].typ != typ then ScanDown(stabs, right - 1, left, typ) else right
  }

  function Finish(stabs: seq<Stab>, t: Scan, typ: int): Region
    requires t.right < |stabs| && -1 <= t.left
  {
    if !t.any then Region(t.left, t.left - 1) else Region(ScanDown(stabs, t.right, t.left, typ), t.right)
  }

  ghost predicate AnyOf(stabs: seq<Stab>, l: int, r: int, typ: int)
    requires InTable(stabs, l, r)
  {
    exists i :: l <= i <= r && stabs[i].typ == typ
  }

  lemma {:induction false} RunBounds(stabs: seq<Stab>, typ: int, s: Scan)
    requires Ok(stabs, s)
    ensures var t := Run(stabs, typ, s);
            && Ok(stabs, t) && s.l - 1 <= t.right <= s.r
            && (s.l <= t.left <= s.r || t.left == s.left)
            && (t.any <==> s.any || AnyOf(stabs, s.l, s.r, typ))
    decreases s.r - s.l, if Hit(stabs, typ, s) then 1 else 0
  {
    hide WalkBack, Middle, Hit;
    if s.l <= s.r {
      RunBounds(stabs, typ, Step(stabs, typ, s));
    }
  }

  function Start(l: int, r: int, addr: uint32): Scan {
    Scan(l, r, addr, l, r, false)
  }

  /** The whole of `stab_binsearch`, on any table. */
  function BinaryRegion(stabs: seq<Stab>, l: int, r: int, typ: int, addr: uint32): (g: Region)
    requires InTable(stabs, l, r)
    ensures l - 1 <= g.left <= g.right + 1 && g.right <= r
    ensures g.left < l ==> g.right == l - 1
  {
    RunBounds(stabs, typ, Start(l, r, addr));
    Finish(stabs, Run(stabs, typ, Start(l, r, addr)), typ)
  }

  /** The walk back over entries of other types, inside the main loop. */
  method SearchBack(stabs: seq<Stab>, l: int, trueM: int, typ: int) returns (m: int)
    requires 0 <= l <= trueM < |stabs|
    ensures m == WalkBack(stabs, l, trueM, typ)
  {
    m := trueM;
    while m >= l && stabs[m].typ != typ
      invariant l - 1 <= m <= trueM
      invariant WalkBack(stabs, l, m, typ) == WalkBack(stabs, l, trueM, typ)
    {
      m := m - 1;
    }
  }

  /** The closing loop. */
  method SearchDown(stabs: seq<Stab>, right: int, left: int, typ: int) returns (l: int)
    requires right < |stabs| && -1 <= left
    ensures l == ScanDown(stabs, right, left, typ)
  {
    l := right;
    while l > left && stabs[l].typ != typ
      invariant l <= right
      invariant ScanDown(stabs, l, left, typ) == ScanDown(stabs, right, left, typ)
    {
      l := l - 1;
    }
  }

  /**
   * `stab_binsearch` terminates on every table, sorted or not, even when
   * `addr` wraps.  The two results are the caller's two variables.
   */
  method StabBinsearch(stabs: seq<Stab>, regionLeft: int, regionRight: int, typ: int, addr: uint32)
    returns (left: int, right: int)
    requires InTable(stabs, regionLeft, regionRight)
    ensures Region(left, right) == BinaryRegion(stabs, regionLeft, regionRight, typ, addr)
  {
    hide WalkBack, Hit, ScanDown, AnyOf;
    left, right := regionLeft, regionRight;
    var l, r, any, a := left, right, false, addr;
    ghost var s := Start(regionLeft, regionRight, addr);
    RunBounds(stabs, typ, s);
    while l <= r
      invariant InTable(stabs, l, r) && s == Scan(l, r, a, left, right, any)
      invariant Run(stabs, typ, s) == Run(stabs, typ, Start(regionLeft, regionRight, addr))
      decreases r - l, if Hit(stabs, typ, s) then 1 else 0
    {
      s := Step(stabs, typ, s);
      var trueM := (l + r) / 2;
      var m := SearchBack(stabs, l, trueM, typ);
      if m < l {
        l := trueM + 1;
        continue;
      }
      any := true;
      if stabs[m].value < a {
        left := m;
        l := trueM + 1;
      } else if stabs[m].value > a {
        right := m - 1;
        r := m - 1;
      } else {
        left := m;
        l := m;
        a := Increment(a);
      }
    }
    assert BinaryRegion(stabs, regionLeft, regionRight, typ, addr) == Finish(stabs, s, typ);
    if !any {
      right := left - 1;
    } else {
      left := SearchDown(stabs, right, left, typ);
    }
  }

  /**
   * The search follows its probes to the first exact hit and there still has an entry
   * one above the address in its window, or the address is the highest one, so
   * that adding one wraps.
   */
  predicate Overshoots(stabs: seq<Stab>, typ: int, s: Scan)
    requires InTable(stabs, s.l, s.r)
    decreases s.r - s.l
  {
    s.l <= s.r &&
    if Hit(stabs, typ, s) then
      s.addr == MAX ||
      var t := Step(stabs, typ, s);
      exists i | t.l <= i <= t.r :: stabs[i].typ == typ && stabs[i].value == s.addr + 1
    else Overshoots(stabs, typ, Step(stabs, typ, s))
  }

  /** Nothing is missed unless both `addr` and `addr + 1`, or the highest address, are in the table. */
  lemma {:induction false} NoNeighbourNoOvershoot(stabs: seq<Stab>, typ: int, s: Scan)
    requires InTable(stabs, s.l, s.r)
    requires !Has(stabs, s.l, s.r, typ, s.addr) || (s.addr < MAX && !Has(stabs, s.l, s.r, typ, s.addr + 1))
    ensures !Overshoots(stabs, typ, s)
    decreases s.r - s.l
  {
    if s.l <= s.r && !Hit(stabs, typ, s) {
      NoNeighbourNoOvershoot(stabs, typ, Step(stabs, typ, s));
    }
  }
}
