/** Tables put together from blocks, each an entry of one type followed by entries of others. */
module StabBlocks {
  import opened Int32
  import opened Stabs
  import opened StabSearch
  import opened StabTheorems

  /** An entry of type `typ` and what belongs to it, none of which has that type. */
  ghost predicate IsBlock(b: seq<Stab>, typ: int) {
    b != [] && b[0].typ == typ && NoneOf(b[1..], typ)
  }

  ghost predicate NoneOf(s: seq<Stab>, typ: int) {
    forall e | e in s :: e.typ != typ
  }

  function Flat(bs: seq<seq<Stab>>): seq<Stab> {
    if bs == [] then [] else bs[0] + Flat(bs[1..])
  }

  /** Where block `j` starts. */
  function Offset(bs: seq<seq<Stab>>, j: nat): nat
    requires j <= |bs|
  {
    |Flat(bs[..j])|
  }

  /** The last of some entries at or below `a`, or -1. */
  function LastHead(heads: seq<Stab>, a: int): (k: int)
    ensures -1 <= k < |heads|
    ensures 0 <= k ==> heads[k].value <= a
    ensures forall i | k < i < |heads| :: a < heads[i].value
  {
    if heads == [] then -1
    else if heads[|heads| - 1].value <= a then |heads| - 1
    else LastHead(heads[..|heads| - 1], a)
  }

  ghost predicate Ascending(heads: seq<Stab>) {
    forall i, j | 0 <= i < j < |heads| :: heads[i].value <= heads[j].value
  }

  lemma {:induction false} FlatSplit(bs: seq<seq<Stab>>, j: nat)
    requires j < |bs|
    ensures Flat(bs) == Flat(bs[..j]) + bs[j] + Flat(bs[j + 1..])
    ensures Offset(bs, j + 1) == Offset(bs, j) + |bs[j]|
    decreases j
  {
    if j == 0 {
      assert bs[..1][1..] == [];
      assert Flat(bs[..1]) == bs[0] + Flat([]);
    } else {
      FlatSplit(bs[1..], j - 1);
      assert bs[1..][j - 1] == bs[j] && bs[1..][j..] == bs[j + 1..];
      assert bs[..j][1..] == bs[1..][..j - 1] && bs[..j + 1][1..] == bs[1..][..j];
    }
  }

  /** The block that an entry of the flattened table belongs to. */
  lemma {:induction false} BlockAt(bs: seq<seq<Stab>>, i: nat) returns (j: nat)
    requires i < |Flat(bs)|
    ensures j < |bs| && Offset(bs, j) <= i < Offset(bs, j) + |bs[j]|
    ensures Flat(bs)[i] == bs[j][i - Offset(bs, j)]
  {
    if i < |bs[0]| {
      j := 0;
    } else {
      var j' := BlockAt(bs[1..], i - |bs[0]|);
      j := j' + 1;
      assert bs[..j][1..] == bs[1..][..j'];
    }
  }

  lemma {:induction false} OffsetGrows(bs: seq<seq<Stab>>, j: nat, k: nat)
    requires j < k <= |bs|
    ensures Offset(bs, j) + |bs[j]| <= Offset(bs, k) <= |Flat(bs)|
    decreases k
  {
    if k == |bs| {
      assert bs[..k] == bs;
    } else {
      FlatSplit(bs, k);
    }
    FlatSplit(bs, k - 1);
    if j < k - 1 {
      OffsetGrows(bs, j, k - 1);
    }
  }

  ghost predicate Blocks(lead: seq<Stab>, bs: seq<seq<Stab>>, typ: int) {
    NoneOf(lead, typ) && forall j | 0 <= j < |bs| :: IsBlock(bs[j], typ)
  }

  function Heads(bs: seq<seq<Stab>>): (hs: seq<Stab>)
    requires forall j | 0 <= j < |bs| :: bs[j] != []
    ensures |hs| == |bs| && forall j | 0 <= j < |bs| :: hs[j] == bs[j][0]
  {
    seq(|bs|, j requires 0 <= j < |bs| => bs[j][0])
  }

  lemma HeadEntry(lead: seq<Stab>, bs: seq<seq<Stab>>, typ: int, j: nat)
    requires Blocks(lead, bs, typ) && j < |bs|
    ensures var i := |lead| + Offset(bs, j); i < |lead + Flat(bs)| && (lead + Flat(bs))[i] == bs[j][0]
  {
    FlatSplit(bs, j);
  }

  /** Entries of the type are heads of blocks. */
  lemma HeadAt(lead: seq<Stab>, bs: seq<seq<Stab>>, typ: int, i: nat) returns (j: nat)
    requires Blocks(lead, bs, typ)
    requires i < |lead + Flat(bs)| && (lead + Flat(bs))[i].typ == typ
    ensures j < |bs| && i == |lead| + Offset(bs, j) && (lead + Flat(bs))[i] == bs[j][0]
  {
    j := BlockAt(bs, i - |lead|);
  }

  lemma HeadsSorted(lead: seq<Stab>, bs: seq<seq<Stab>>, typ: int)
    requires Blocks(lead, bs, typ) && Ascending(Heads(bs))
    ensures var w := lead + Flat(bs); Sorted(w, 0, |w| - 1, typ)
  {
    var w := lead + Flat(bs);
    forall i, j | 0 <= i < j < |w| && w[i].typ == typ && w[j].typ == typ
      ensures w[i].value <= w[j].value
    {
      var bi := HeadAt(lead, bs, typ, i);
      var bj := HeadAt(lead, bs, typ, j);
      if bj < bi {
        OffsetGrows(bs, bj, bi);
      }
    }
  }

  /** The region of block `k`, counted from the start of the lead; without a block, what the search makes of that. */
  function BlockRegion(lead: seq<Stab>, bs: seq<seq<Stab>>, k: int): Region
    requires -1 <= k < |bs|
  {
    if bs == [] then Region(0, -1)
    else if k < 0 then Region(if lead == [] then -1 else 0, |lead| - 1)
    else Region(|lead| + Offset(bs, k), |lead| + Offset(bs, k + 1) - 1)
  }

  lemma BlockSlice(lead: seq<Stab>, bs: seq<seq<Stab>>, k: nat)
    requires k < |bs| && bs[k] != []
    ensures var w, g := lead + Flat(bs), BlockRegion(lead, bs, k);
            && |lead| <= g.left <= g.right < |w|
            && w[g.left..g.right + 1] == bs[k]
            && w[..g.left] == lead + Flat(bs[..k])
  {
    FlatSplit(bs, k);
  }

  /** Between two heads there is no entry of the type. */
  lemma NoneBetween(lead: seq<Stab>, bs: seq<seq<Stab>>, typ: int, k: int)
    requires Blocks(lead, bs, typ) && -1 <= k < |bs|
    ensures var w := lead + Flat(bs);
            var from, to := if k < 0 then -1 else |lead| + Offset(bs, k), |lead| + Offset(bs, k + 1);
            to <= |w| && forall i | from < i < to :: w[i].typ != typ
  {
    var w := lead + Flat(bs);
    var from, to := if k < 0 then -1 else |lead| + Offset(bs, k), |lead| + Offset(bs, k + 1);
    if k + 1 < |bs| {
      HeadEntry(lead, bs, typ, k + 1);
    } else {
      assert bs[..k + 1] == bs;
    }
    forall i | from < i < to && w[i].typ == typ
      ensures false
    {
      var j := HeadAt(lead, bs, typ, i);
      if j < k {
        OffsetGrows(bs, j, k);
      } else if k + 1 < j {
        OffsetGrows(bs, k + 1, j);
      }
    }
  }

  lemma BlockCut(lead: seq<Stab>, bs: seq<seq<Stab>>, typ: int, a: uint32) returns (last: int, next: int)
    requires Blocks(lead, bs, typ)
    ensures var k := LastHead(Heads(bs), a);
            last == (if k < 0 then -1 else |lead| + Offset(bs, k)) && next == |lead| + Offset(bs, k + 1)
    ensures var w := lead + Flat(bs); Cut(w, 0, |w| - 1, typ, a, last, next)
  {
    var k := LastHead(Heads(bs), a);
    NoneBetween(lead, bs, typ, k);
    last, next := -1, |lead| + Offset(bs, k + 1);
    if 0 <= k {
      last := |lead| + Offset(bs, k);
      HeadEntry(lead, bs, typ, k);
      OffsetGrows(bs, k, k + 1);
    }
    if k + 1 < |bs| {
      HeadEntry(lead, bs, typ, k + 1);
      assert Heads(bs)[k + 1] == bs[k + 1][0];
    } else {
      assert bs[..k + 1] == bs;
    }
  }

  lemma AnyHead(lead: seq<Stab>, bs: seq<seq<Stab>>, typ: int)
    requires Blocks(lead, bs, typ)
    ensures var w := lead + Flat(bs); AnyOf(w, 0, |w| - 1, typ) <==> bs != []
  {
    if bs != [] {
      HeadEntry(lead, bs, typ, 0);
      assert Offset(bs, 0) == 0;
    }
  }

  /** The linear scan of a table made of blocks finds the last block at or below the address. */
  lemma BlockSearch(lead: seq<Stab>, bs: seq<seq<Stab>>, typ: int, a: uint32)
    requires Blocks(lead, bs, typ) && Ascending(Heads(bs))
    ensures var w := lead + Flat(bs);
            && Sorted(w, 0, |w| - 1, typ)
            && LinearRegion(w, 0, |w| - 1, typ, a) == BlockRegion(lead, bs, LastHead(Heads(bs), a))
  {
    hide LinearRegion, Sorted, Cut, AnyOf, Flat, LastHead, Blocks, Ascending;
    var w := lead + Flat(bs);
    HeadsSorted(lead, bs, typ);
    var last, next := BlockCut(lead, bs, typ, a);
    LinearByCut(w, 0, |w| - 1, typ, a, last, next);
    AnyHead(lead, bs, typ);
    OffsetNone(bs);
  }

  lemma OffsetNone(bs: seq<seq<Stab>>)
    ensures Offset(bs, 0) == 0
  {
  }

  /** What a search for block `k` brackets: that block, or the lead when there is none. */
  function SectionAt(lead: seq<Stab>, bs: seq<seq<Stab>>, k: int): seq<Stab>
    requires -1 <= k < |bs|
  {
    if k < 0 then lead else bs[k]
  }

  function BeforeSection(lead: seq<Stab>, bs: seq<seq<Stab>>, k: int): seq<Stab>
    requires -1 <= k < |bs|
  {
    if k < 0 then [] else lead + Flat(bs[..k])
  }

  /** `h` brackets the section, preceded by `before`, in `e`; or there are no blocks and `e` is the section. */
  ghost predicate Within(e: seq<Stab>, section: seq<Stab>, before: seq<Stab>, any: bool, h: Region) {
    if any then 0 <= h.left <= h.right < |e| && e[h.left..h.right + 1] == section && e[..h.left] == before
    else h == Region(0, -1) && e == section && before == []
  }

  /** The same, in terms of the entries that the region holds and of those before it. */
  lemma BlockFound(lead: seq<Stab>, bs: seq<seq<Stab>>, heads: seq<Stab>, any: bool, typ: int, a: uint32)
    requires Blocks(lead, bs, typ) && Ascending(heads) && lead != []
    requires heads == Heads(bs) && any == (bs != [])
    ensures var w, k := lead + Flat(bs), LastHead(heads, a);
            Within(w, SectionAt(lead, bs, k), BeforeSection(lead, bs, k), any, LinearRegion(w, 0, |w| - 1, typ, a))
  {
    hide LinearRegion, Sorted, LastHead, Ascending;
    var k := LastHead(heads, a);
    BlockSearch(lead, bs, typ, a);
    if 0 <= k {
      BlockSlice(lead, bs, k);
    }
  }
}
