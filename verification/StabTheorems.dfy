/** What `stab_binsearch` finds, against a plain linear scan. */
module StabTheorems {
  import opened Int32
  import opened Stabs
  import opened StabSearch

  /** `last` and `next` are neighbours of type `typ`, or the window's ends, on both sides of `a`. */
  ghost predicate Cut(stabs: seq<Stab>, l: int, r: int, typ: int, a: int, last: int, next: int)
    requires InTable(stabs, l, r)
  {
    && l - 1 <= last < next <= r + 1
    && (l <= last ==> stabs[last].typ == typ && stabs[last].value <= a)
    && (next <= r ==> stabs[next].typ == typ && a < stabs[next].value)
    && forall i | last < i < next :: stabs[i].typ != typ
  }

  lemma CutIsLinear(stabs: seq<Stab>, l: int, r: int, typ: int, a: uint32, last: int, next: int)
    requires InTable(stabs, l, r) && Sorted(stabs, l, r, typ)
    requires Cut(stabs, l, r, typ, a, last, next)
    ensures last == LastAtMost(stabs, l, r, typ, a) && next == FirstAbove(stabs, last + 1, r, typ, a)
  {
    NoneAfterLast(stabs, l, r, typ, a);
    NoneBeforeFirst(stabs, last + 1, r, typ, a);
  }

  /** A cut of the window after one turn is one of the window before it, on any table. */
  lemma StepCut(stabs: seq<Stab>, typ: int, s: Scan, last': int, next: int) returns (last: int)
    requires Ok(stabs, s) && s.l <= s.r
    requires Hit(stabs, typ, s) ==> s.addr < MAX
    requires var t := Step(stabs, typ, s);
             && (Hit(stabs, typ, s) ==> !Has(stabs, t.l, t.r, typ, s.addr + 1))
             && Cut(stabs, t.l, t.r, typ, t.addr, last', next)
    ensures Cut(stabs, s.l, s.r, typ, s.addr, last, next)
    ensures var t := Step(stabs, typ, s);
            (if t.l <= last' then last' else t.left) == (if s.l <= last then last else s.left)
  {
    var t := Step(stabs, typ, s);
    var m := WalkBack(stabs, s.l, Middle(s.l, s.r), typ);
    if t.l <= last' {
      last := last';
    } else if m < s.l || stabs[m].value > s.addr {
      last := s.l - 1;
    } else {
      last := m;
    }
  }

  lemma CutEmpty(stabs: seq<Stab>, l: int, typ: int, a: int)
    requires 0 <= l <= |stabs|
    ensures Cut(stabs, l, l - 1, typ, a, l - 1, l)
  {
  }

  /** A search that does not overshoot does not do so later on either. */
  lemma StepSafe(stabs: seq<Stab>, typ: int, s: Scan)
    requires InTable(stabs, s.l, s.r) && s.l <= s.r && !Overshoots(stabs, typ, s)
    ensures var t := Step(stabs, typ, s);
            && !Overshoots(stabs, typ, t)
            && (Hit(stabs, typ, s) ==> s.addr < MAX && !Has(stabs, t.l, t.r, typ, s.addr + 1))
  {
    var t := Step(stabs, typ, s);
    if Hit(stabs, typ, s) {
      assert !Has(stabs, t.l, t.r, typ, t.addr);
      NoNeighbourNoOvershoot(stabs, typ, t);
    }
  }

  /**
   * On any table, sorted or not, a search that does not overshoot ends between two
   * neighbouring entries of the type, the left one at or below the address and
   * the right one above it.
   */
  lemma {:induction false} RunCut(stabs: seq<Stab>, typ: int, s: Scan) returns (last: int)
    requires Ok(stabs, s) && !Overshoots(stabs, typ, s)
    ensures Cut(stabs, s.l, s.r, typ, s.addr, last, Run(stabs, typ, s).right + 1)
    ensures Run(stabs, typ, s).left == (if s.l <= last then last else s.left)
    decreases s.r - s.l, if Hit(stabs, typ, s) then 1 else 0
  {
    hide Hit, Overshoots, Cut, Has, Step;
    if s.r < s.l {
      last := s.l - 1;
      CutEmpty(stabs, s.l, typ, s.addr);
    } else {
      var t := Step(stabs, typ, s);
      StepSafe(stabs, typ, s);
      last := RunCut(stabs, typ, t);
      last := StepCut(stabs, typ, s, last, Run(stabs, typ, t).right + 1);
    }
  }

  lemma LinearByCut(stabs: seq<Stab>, l: int, r: int, typ: int, a: uint32, last: int, next: int)
    requires InTable(stabs, l, r) && Sorted(stabs, l, r, typ)
    requires Cut(stabs, l, r, typ, a, last, next)
    ensures LinearRegion(stabs, l, r, typ, a) ==
            if !AnyOf(stabs, l, r, typ) then Region(l, l - 1)
            else Region(if l <= last then last else if l < next then l else next - 1, next - 1)
  {
    hide LastAtMost, FirstAbove, Sorted;
    CutIsLinear(stabs, l, r, typ, a, last, next);
    NoneBeforeFirst(stabs, l, r, typ, -1);
  }

  /** From such a cut the closing scan comes to the same region. */
  lemma FinishByCut(stabs: seq<Stab>, t: Scan, l: int, r: int, typ: int, a: uint32, last: int)
    requires InTable(stabs, l, r) && Cut(stabs, l, r, typ, a, last, t.right + 1)
    requires t.left == (if l <= last then last else l) && (t.any <==> AnyOf(stabs, l, r, typ))
    ensures Finish(stabs, t, typ) ==
            if !AnyOf(stabs, l, r, typ) then Region(l, l - 1)
            else Region(if l <= last then last else if l < t.right + 1 then l else t.right, t.right)
  {
  }

  /** On a sorted region, a search that does not overshoot agrees with the linear scan. */
  lemma BinaryIsLinear(stabs: seq<Stab>, l: int, r: int, typ: int, addr: uint32)
    requires InTable(stabs, l, r) && Sorted(stabs, l, r, typ)
    requires !Overshoots(stabs, typ, Start(l, r, addr))
    ensures BinaryRegion(stabs, l, r, typ, addr) == LinearRegion(stabs, l, r, typ, addr)
  {
    hide Run, Overshoots, Has, Cut, Sorted, AnyOf, LinearRegion, Finish;
    var s := Start(l, r, addr);
    var last := RunCut(stabs, typ, s);
    RunBounds(stabs, typ, s);
    var t := Run(stabs, typ, s);
    FinishByCut(stabs, t, l, r, typ, addr, last);
    LinearByCut(stabs, l, r, typ, addr, last, t.right + 1);
  }

  /**
   * On any table an empty region is left exactly when there is no entry of the type at all.
   * That is less than the function's comment says, which is that the address is in no entry.
   */
  lemma EmptyExactly(stabs: seq<Stab>, l: int, r: int, typ: int, addr: uint32)
    requires InTable(stabs, l, r)
    ensures var g := BinaryRegion(stabs, l, r, typ, addr);
            g.right < g.left <==> !AnyOf(stabs, l, r, typ)
  {
    hide Run, AnyOf;
    RunBounds(stabs, typ, Start(l, r, addr));
  }

  /** An entry at or below the address is never cut off on the right. */
  lemma {:induction false} RightKept(stabs: seq<Stab>, typ: int, s: Scan, j: int)
    requires Ok(stabs, s) && Sorted(stabs, s.l, s.r, typ)
    requires s.l <= j <= s.r && stabs[j].typ == typ && stabs[j].value <= s.addr && stabs[j].value < MAX
    ensures j <= Run(stabs, typ, s).right
    decreases s.r - s.l, if Hit(stabs, typ, s) then 1 else 0
  {
    var t := Step(stabs, typ, s);
    if j < t.l {
      RunBounds(stabs, typ, t);
    } else {
      RightKept(stabs, typ, t, j);
    }
  }

  /** After a wrap every entry left in the window counts as above the address, even the one just hit. */
  lemma {:induction false} AfterWrap(stabs: seq<Stab>, typ: int, s: Scan)
    requires Ok(stabs, s) && s.l <= s.r && stabs[s.l].typ == typ
    requires forall i | s.l <= i <= s.r && stabs[i].typ == typ :: s.addr < stabs[i].value
    ensures Run(stabs, typ, s).right == s.l - 1
    decreases s.r - s.l
  {
    var t := Step(stabs, typ, s);
    if t.l <= t.r {
      AfterWrap(stabs, typ, t);
    }
  }

  /** The entry of the first exact hit, or -1. */
  function FirstHit(stabs: seq<Stab>, typ: int, s: Scan): (k: int)
    requires InTable(stabs, s.l, s.r)
    ensures k == -1 || s.l <= k <= s.r
    decreases s.r - s.l
  {
    if s.r < s.l then -1
    else if Hit(stabs, typ, s) then WalkBack(stabs, s.l, Middle(s.l, s.r), typ)
    else FirstHit(stabs, typ, Step(stabs, typ, s))
  }

  /** The variables just after the first exact hit. */
  function AfterHit(stabs: seq<Stab>, typ: int, s: Scan): (t: Scan)
    requires InTable(stabs, s.l, s.r)
    ensures InTable(stabs, t.l, t.r) && s.l <= t.l && t.r <= s.r
    decreases s.r - s.l
  {
    if s.r < s.l then s
    else if Hit(stabs, typ, s) then Step(stabs, typ, s)
    else AfterHit(stabs, typ, Step(stabs, typ, s))
  }

  lemma HitStep(stabs: seq<Stab>, typ: int, s: Scan)
    requires Ok(stabs, s) && Hit(stabs, typ, s)
    ensures var t, m := Step(stabs, typ, s), WalkBack(stabs, s.l, Middle(s.l, s.r), typ);
            && t == Scan(m, s.r, Increment(s.addr), m, s.right, true)
            && s.l <= m <= s.r && stabs[m].typ == typ && stabs[m].value == s.addr
  {
  }

  /** An overshooting search goes on from its first exact hit with the address one higher. */
  lemma {:induction false} GoesOn(stabs: seq<Stab>, typ: int, s: Scan)
    requires Ok(stabs, s) && Overshoots(stabs, typ, s)
    ensures var t, m := AfterHit(stabs, typ, s), FirstHit(stabs, typ, s);
            && Ok(stabs, t) && Run(stabs, typ, t) == Run(stabs, typ, s)
            && t.l == t.left == m && m <= t.r && t.addr == Increment(s.addr)
            && 0 <= m && stabs[m].typ == typ && stabs[m].value == s.addr
            && (s.addr < MAX ==> Has(stabs, t.l, t.r, typ, s.addr + 1))
    decreases s.r - s.l
  {
    hide Step, Hit, Middle, WalkBack;
    if Hit(stabs, typ, s) {
      HitStep(stabs, typ, s);
    } else {
      MissStep(stabs, typ, s);
      GoesOn(stabs, typ, Step(stabs, typ, s));
    }
  }

  lemma MissStep(stabs: seq<Stab>, typ: int, s: Scan)
    requires InTable(stabs, s.l, s.r) && s.l <= s.r && !Hit(stabs, typ, s)
    ensures Step(stabs, typ, s).addr == s.addr
  {
  }

  /** At the highest address the search ends before its first hit, whatever is there. */
  lemma AfterTop(stabs: seq<Stab>, typ: int, s: Scan)
    requires Ok(stabs, s) && Sorted(stabs, s.l, s.r, typ)
    requires Overshoots(stabs, typ, s) && s.addr == MAX
    ensures var t := Run(stabs, typ, s); t.right == FirstHit(stabs, typ, s) - 1 < t.left
  {
    hide Overshoots, FirstHit, AfterHit, Run;
    GoesOn(stabs, typ, s);
    AfterWrap(stabs, typ, AfterHit(stabs, typ, s));
    RunBounds(stabs, typ, AfterHit(stabs, typ, s));
  }

  /** Entries at the highest address are not passed without a hit. */
  lemma {:induction false} TopIsHit(stabs: seq<Stab>, typ: int, s: Scan)
    requires Ok(stabs, s) && Sorted(stabs, s.l, s.r, typ) && s.addr == MAX && Has(stabs, s.l, s.r, typ, MAX)
    ensures Overshoots(stabs, typ, s)
    decreases s.r - s.l
  {
    hide WalkBack, Middle;
    if !Hit(stabs, typ, s) {
      TopIsHit(stabs, typ, Step(stabs, typ, s));
    }
  }

  /** Next to the highest address the search goes on for that, and ends before the first hit of it. */
  lemma NextToTop(stabs: seq<Stab>, typ: int, s: Scan)
    requires Ok(stabs, s) && Sorted(stabs, s.l, s.r, typ)
    requires Overshoots(stabs, typ, s) && s.addr == MAX - 1
    ensures var t, p := Run(stabs, typ, s), FirstHit(stabs, typ, AfterHit(stabs, typ, s));
            && t.right == p - 1 < t.left
            && s.l < p <= s.r && stabs[p].typ == typ && stabs[p].value == MAX
  {
    hide Overshoots, FirstHit, AfterHit, Run;
    GoesOn(stabs, typ, s);
    var t := AfterHit(stabs, typ, s);
    TopIsHit(stabs, typ, t);
    GoesOn(stabs, typ, t);
    AfterTop(stabs, typ, t);
  }

  /** Below that, an overshooting search passes the entries at the address: it ends at one above. */
  lemma PassesOver(stabs: seq<Stab>, typ: int, s: Scan) returns (j: int)
    requires Ok(stabs, s) && Sorted(stabs, s.l, s.r, typ)
    requires Overshoots(stabs, typ, s) && s.addr < MAX - 1
    ensures s.l <= j <= s.r && stabs[j].typ == typ && stabs[j].value == s.addr + 1
    ensures j <= Run(stabs, typ, s).right
  {
    hide Overshoots, FirstHit, AfterHit, Run;
    GoesOn(stabs, typ, s);
    var t := AfterHit(stabs, typ, s);
    j :| t.l <= j <= t.r && stabs[j].typ == typ && stabs[j].value == s.addr + 1;
    RightKept(stabs, typ, t, j);
    RunBounds(stabs, typ, s);
  }

  /** Where an overshooting search ends up. */
  lemma OvershootEnds(stabs: seq<Stab>, l: int, r: int, typ: int, addr: uint32)
    requires InTable(stabs, l, r) && Sorted(stabs, l, r, typ) && Overshoots(stabs, typ, Start(l, r, addr))
    ensures var s, g := Start(l, r, addr), BinaryRegion(stabs, l, r, typ, addr);
            if addr == MAX then g == Region(FirstHit(stabs, typ, s) - 1, FirstHit(stabs, typ, s) - 1)
            else if addr == MAX - 1 then
              var p := FirstHit(stabs, typ, AfterHit(stabs, typ, s));
              && l < p <= r && stabs[p].typ == typ && stabs[p].value == MAX && g == Region(p - 1, p - 1)
            else l <= g.left && LastAtMost(stabs, l, r, typ, addr) < g.left
    ensures l <= FirstHit(stabs, typ, Start(l, r, addr)) <= LastAtMost(stabs, l, r, typ, addr)
  {
    hide Overshoots, FirstHit, AfterHit, Run, LastAtMost;
    var s := Start(l, r, addr);
    RunBounds(stabs, typ, s);
    GoesOn(stabs, typ, s);
    LastAround(stabs, l, r, typ, addr, FirstHit(stabs, typ, s));
    if addr == MAX {
      AfterTop(stabs, typ, s);
    } else if addr == MAX - 1 {
      NextToTop(stabs, typ, s);
    } else {
      var j := PassesOver(stabs, typ, s);
      LastAround(stabs, l, r, typ, addr, j);
      FinishAround(stabs, Run(stabs, typ, s), typ, j);
    }
  }

  lemma FinishAround(stabs: seq<Stab>, t: Scan, typ: int, j: int)
    requires t.any && t.right < |stabs| && -1 <= t.left && 0 <= j < |stabs| && stabs[j].typ == typ
    ensures j <= Finish(stabs, t, typ).left <==> j <= t.right
  {
  }

  lemma LastAround(stabs: seq<Stab>, l: int, r: int, typ: int, a: int, j: int)
    requires InTable(stabs, l, r) && Sorted(stabs, l, r, typ)
    requires l <= j <= r && stabs[j].typ == typ
    ensures j <= LastAtMost(stabs, l, r, typ, a) <==> stabs[j].value <= a
  {
    NoneAfterLast(stabs, l, r, typ, a);
  }

  /**
   * Next to the highest address, a second wrap undoes the damage when right before the first
   * hit of the highest address there is an entry of the type below that.
   */
  predicate Repaired(stabs: seq<Stab>, typ: int, s: Scan)
    requires InTable(stabs, s.l, s.r)
  {
    s.addr == MAX - 1 &&
    var p := FirstHit(stabs, typ, AfterHit(stabs, typ, s));
    0 < p && stabs[p - 1].typ == typ && stabs[p - 1].value < MAX
  }

  /** When `p` is the first of the entries just above the address and the search ended before that. */
  lemma EndsBefore(stabs: seq<Stab>, l: int, r: int, typ: int, a: uint32, p: int)
    requires InTable(stabs, l, r) && Sorted(stabs, l, r, typ)
    requires l < p <= r && stabs[p].typ == typ && stabs[p].value == a + 1
    ensures var last := LastAtMost(stabs, l, r, typ, a);
            && (p - 1 == last <==> stabs[p - 1].typ == typ && stabs[p - 1].value <= a)
            && (p - 1 == last ==> FirstAbove(stabs, last + 1, r, typ, a) == p)
  {
    hide LastAtMost, FirstAbove;
    if stabs[p - 1].typ == typ && stabs[p - 1].value <= a {
      CutIsLinear(stabs, l, r, typ, a, p - 1, p);
    }
  }

  lemma OvershootOutcome(stabs: seq<Stab>, l: int, r: int, typ: int, addr: uint32)
    requires InTable(stabs, l, r) && Sorted(stabs, l, r, typ) && Overshoots(stabs, typ, Start(l, r, addr))
    ensures var g, last := BinaryRegion(stabs, l, r, typ, addr), LastAtMost(stabs, l, r, typ, addr);
            && l <= last
            && (g.left == last <==> Repaired(stabs, typ, Start(l, r, addr)))
            && (g.left == last ==> g.right == FirstAbove(stabs, last + 1, r, typ, addr) - 1)
  {
    hide Overshoots, FirstHit, AfterHit, BinaryRegion, LastAtMost, FirstAbove, Sorted;
    var s := Start(l, r, addr);
    OvershootEnds(stabs, l, r, typ, addr);
    if addr == MAX - 1 {
      EndsBefore(stabs, l, r, typ, addr, FirstHit(stabs, typ, AfterHit(stabs, typ, s)));
    }
  }

  /**
   * On a sorted region the search finds what a linear scan finds, and so the last entry of
   * the type at or below the address where there is one, exactly when it does not
   * overshoot or a second wrap repairs that.
   */
  lemma ExactCondition(stabs: seq<Stab>, l: int, r: int, typ: int, addr: uint32)
    requires InTable(stabs, l, r) && Sorted(stabs, l, r, typ)
    ensures var g, last := BinaryRegion(stabs, l, r, typ, addr), LastAtMost(stabs, l, r, typ, addr);
            var right := !Overshoots(stabs, typ, Start(l, r, addr)) || Repaired(stabs, typ, Start(l, r, addr));
            && (g == LinearRegion(stabs, l, r, typ, addr) <==> right)
            && (l <= last ==> (g.left == last <==> right))
  {
    hide Overshoots, Repaired, BinaryRegion, LastAtMost, FirstAbove;
    NoneBeforeFirst(stabs, l, r, typ, -1);
    if Overshoots(stabs, typ, Start(l, r, addr)) {
      OvershootOutcome(stabs, l, r, typ, addr);
    } else {
      BinaryIsLinear(stabs, l, r, typ, addr);
    }
  }

  /** At the highest address the search of a table hits its first entry only at once. */
  lemma HitAtStart(stabs: seq<Stab>, typ: int, s: Scan)
    requires InTable(stabs, s.l, s.r) && s.l == 0 && s.addr == MAX
    ensures FirstHit(stabs, typ, s) == 0
            <==> 0 <= s.r && stabs[0].typ == typ && stabs[0].value == MAX
                 && forall i | 0 < i <= Middle(0, s.r) :: stabs[i].typ != typ
    ensures FirstHit(stabs, typ, s) == 0 ==> Overshoots(stabs, typ, s)
  {
  }

  /**
   * On a sorted table the left end comes to lie before the table exactly when that starts with
   * an entry of the type that is above the address, or that is at the highest address,
   * is searched for, and has no other entry of the type up to the middle.
   */
  lemma LeavesTable(stabs: seq<Stab>, typ: int, addr: uint32)
    requires Sorted(stabs, 0, |stabs| - 1, typ)
    ensures BinaryRegion(stabs, 0, |stabs| - 1, typ, addr).left < 0
            <==> stabs != [] && stabs[0].typ == typ
                 && (addr < stabs[0].value
                     || (addr == stabs[0].value == MAX
                         && forall i | 0 < i <= Middle(0, |stabs| - 1) :: stabs[i].typ != typ))
  {
    hide Overshoots, BinaryRegion, LastAtMost, FirstHit;
    var r := |stabs| - 1;
    var s := Start(0, r, addr);
    if stabs != [] && stabs[0].typ == typ {
      LastAround(stabs, 0, r, typ, addr, 0);
    }
    if addr == MAX {
      HitAtStart(stabs, typ, s);
    }
    if Overshoots(stabs, typ, s) {
      GoesOn(stabs, typ, s);
      OvershootEnds(stabs, 0, r, typ, addr);
    } else {
      BinaryIsLinear(stabs, 0, r, typ, addr);
      NoneBeforeFirst(stabs, 0, r, typ, -1);
    }
  }

  /** A sorted region on which the search goes wrong: 5 is found at index 1. */
  lemma OvershootExample()
    ensures var stabs := [Stab(0, N_FUN, 0, 5), Stab(0, N_FUN, 0, 6)];
            Sorted(stabs, 0, 1, N_FUN) && LastAtMost(stabs, 0, 1, N_FUN, 5) == 0 &&
            BinaryRegion(stabs, 0, 1, N_FUN, 5).left == 1
  {
    var stabs := [Stab(0, N_FUN, 0, 5), Stab(0, N_FUN, 0, 6)];
    var s1 := Step(stabs, N_FUN, Start(0, 1, 5));
    assert s1 == Scan(0, 1, 6, 0, 1, true);
    var s2 := Step(stabs, N_FUN, s1);
    assert s2 == Scan(1, 1, 6, 0, 1, true);
    var s3 := Step(stabs, N_FUN, s2);
    assert s3 == Scan(1, 1, 7, 1, 1, true);
    var s4 := Step(stabs, N_FUN, s3);
    assert s4 == Scan(2, 1, 7, 1, 1, true);
    assert Run(stabs, N_FUN, s3) == s4;
    assert Run(stabs, N_FUN, s1) == s4;
  }

  /** Next to the highest address, a second wrap can undo the damage. */
  lemma WrapRepairs()
    ensures var stabs := [Stab(0, N_FUN, 0, MAX - 1), Stab(0, N_FUN, 0, MAX)];
            Overshoots(stabs, N_FUN, Start(0, 1, MAX - 1)) &&
            BinaryRegion(stabs, 0, 1, N_FUN, MAX - 1) == Region(0, 0)
  {
    var stabs := [Stab(0, N_FUN, 0, MAX - 1), Stab(0, N_FUN, 0, MAX)];
    var s1 := Step(stabs, N_FUN, Start(0, 1, MAX - 1));
    assert s1 == Scan(0, 1, MAX, 0, 1, true);
    assert stabs[1].value == MAX;
    var s2 := Step(stabs, N_FUN, s1);
    assert s2 == Scan(1, 1, MAX, 0, 1, true);
    var s3 := Step(stabs, N_FUN, s2);
    assert s3 == Scan(1, 1, 0, 1, 1, true);
    var s4 := Step(stabs, N_FUN, s3);
    assert s4 == Scan(1, 0, 0, 1, 0, true);
    assert Run(stabs, N_FUN, s3) == s4;
    assert Run(stabs, N_FUN, s1) == s4;
  }
}
