/** When reading whole sectors leaves every segment as it is on the disk. */
module BootTheorems {
  import opened Boot

  predicate Covers(s: Segment, x: nat) { s.Lo() <= x < s.Hi() }

  /** The last segment whose sectors go over address `x`, or -1. */
  function Writer(ss: seq<Segment>, x: nat): (w: int)
    ensures -1 <= w < |ss|
    ensures 0 <= w ==> Covers(ss[w], x)
    decreases |ss|
  {
    if ss == [] then -1
    else if Covers(ss[|ss| - 1], x) then |ss| - 1
    else Writer(ss[..|ss| - 1], x)
  }

  lemma {:induction false} WriterIsLast(ss: seq<Segment>, x: nat, i: nat)
    requires i < |ss| && Covers(ss[i], x)
    ensures i <= Writer(ss, x)
    decreases |ss|
  {
    if i < |ss| - 1 && !Covers(ss[|ss| - 1], x) {
      WriterIsLast(ss[..|ss| - 1], x, i);
    }
  }

  /** Where in the image the byte comes from that loading `s` puts at `x`. */
  function Origin(s: Segment, x: nat): int {
    s.From() + (x - s.Lo())
  }

  /** What the loader leaves at an address: the byte from the last segment that covers it. */
  lemma {:induction false} LoadAllAt(m: seq<byte>, img: seq<byte>, ss: seq<Segment>, x: nat)
    requires AllFit(ss, |m|, |img|) && x < |m|
    ensures var w := Writer(ss, x);
            if w < 0 then LoadAll(m, img, ss)[x] == m[x]
            else 0 <= Origin(ss[w], x) < |img| && LoadAll(m, img, ss)[x] == img[Origin(ss[w], x)]
    decreases |ss|
  {
    if ss != [] {
      var s, before := ss[|ss| - 1], ss[..|ss| - 1];
      LoadAllAt(m, img, before, x);
      LoadedAt(LoadAll(m, img, before), img, s, x);
    }
  }

  lemma LoadedAt(m: seq<byte>, img: seq<byte>, s: Segment, x: nat)
    requires s.Fits(|m|, |img|) && x < |m|
    ensures if Covers(s, x) then 0 <= Origin(s, x) < |img| && Loaded(m, img, s)[x] == img[Origin(s, x)]
            else Loaded(m, img, s)[x] == m[x]
  {
    hide Segment.Lo, Segment.Hi, Segment.From;
  }

  /** Address and file offset agree modulo the sector size, as the ELF format demands of loadable segments. */
  predicate Aligned(s: Segment) { s.pa % SECTSIZE == s.offset % SECTSIZE }

  /** A segment on its own is loaded from its own place exactly when it is aligned. */
  lemma OwnPlace(s: Segment, k: nat)
    requires k < s.memsz
    ensures Covers(s, s.pa + k)
    ensures Origin(s, s.pa + k) == s.offset + k <==> Aligned(s)
  {
    RoundsUp(s);
  }

  lemma RoundsUp(s: Segment)
    ensures s.End() <= s.Hi()
  {
  }

  ghost predicate AllAligned(ss: seq<Segment>) {
    forall j | 0 <= j < |ss| :: Aligned(ss[j])
  }

  /** How far the segment moves from the image to memory. */
  function Displacement(s: Segment): int { s.pa - s.offset }

  /** Of all segments written over an address the last one decides, by its displacement, whether the byte is right. */
  lemma ExactPlace(ss: seq<Segment>, i: nat, k: nat)
    requires i < |ss| && k < ss[i].memsz
    requires AllAligned(ss)
    ensures var w := Writer(ss, ss[i].pa + k);
            i <= w && (Origin(ss[w], ss[i].pa + k) == ss[i].offset + k <==> Displacement(ss[w]) == Displacement(ss[i]))
  {
    var x := ss[i].pa + k;
    OwnPlace(ss[i], k);
    WriterIsLast(ss, x, i);
    var w := Writer(ss, x);
    assert Aligned(ss[w]);
  }

  /** A later segment starts, rounded down, after an earlier one ends; or misses it; or brings the same bytes. */
  ghost predicate Harmless(ss: seq<Segment>) {
    forall i, j | 0 <= i < j < |ss| ::
      ss[i].End() <= ss[j].Lo() || ss[j].Hi() <= ss[i].pa || Displacement(ss[j]) == Displacement(ss[i])
  }

  lemma WriterAgrees(ss: seq<Segment>, i: nat, k: nat)
    requires Harmless(ss) && i < |ss| && k < ss[i].memsz
    requires i <= Writer(ss, ss[i].pa + k)
    ensures Displacement(ss[Writer(ss, ss[i].pa + k)]) == Displacement(ss[i])
  {
    hide Segment.Hi, Segment.Lo, Writer, Displacement;
    var x := ss[i].pa + k;
    var w := Writer(ss, x);
    assert Covers(ss[w], x);
    assert x < ss[i].End();
  }

  lemma InMemory(ss: seq<Segment>, memory: nat, image: nat, i: nat, k: nat)
    requires AllFit(ss, memory, image) && i < |ss| && k < ss[i].memsz
    ensures ss[i].pa + k < memory
  {
    hide Segment.Lo, Segment.Hi;
    RoundsUp(ss[i]);
    assert ss[i].Fits(memory, image);
  }

  /** Reading too much does no harm: every byte of every segment ends up as it is in the image. */
  lemma AllSegmentsLoaded(m: seq<byte>, img: seq<byte>, ss: seq<Segment>, i: nat, k: nat)
    requires AllFit(ss, |m|, |img|) && Harmless(ss)
    requires AllAligned(ss)
    requires i < |ss| && k < ss[i].memsz
    ensures ss[i].pa + k < |m| && ss[i].offset + k < |img|
    ensures LoadAll(m, img, ss)[ss[i].pa + k] == img[ss[i].offset + k]
  {
    hide *;
    InMemory(ss, |m|, |img|, i, k);
    ExactPlace(ss, i, k);
    WriterAgrees(ss, i, k);
    LoadAllAt(m, img, ss, ss[i].pa + k);
  }

  /** Each segment starts, rounded down, where the one before it has ended. */
  ghost predicate Stacked(ss: seq<Segment>) {
    forall k | 0 <= k < |ss| - 1 :: ss[k].End() <= ss[k + 1].Lo()
  }

  lemma {:induction false} StackedApart(ss: seq<Segment>, i: nat, j: nat)
    requires Stacked(ss) && i < j < |ss|
    ensures ss[i].End() <= ss[j].Lo()
    decreases j
  {
    assert ss[j - 1].End() <= ss[j - 1 + 1].Lo();
    if i < j - 1 {
      StackedApart(ss, i, j - 1);
      assert ss[j - 1].Lo() <= ss[j - 1].End();
    }
  }

  /** Ascending segments of which no two neighbours share a sector are harmless. */
  lemma AscendingIsHarmless(ss: seq<Segment>)
    requires Stacked(ss)
    ensures Harmless(ss)
  {
    hide Stacked, Segment.Lo, Segment.End;
    forall i, j | 0 <= i < j < |ss|
      ensures ss[i].End() <= ss[j].Lo()
    {
      StackedApart(ss, i, j);
    }
  }

  /**
   * Increasing order alone is not enough: these two segments are aligned and
   * do not overlap, but loading the second replaces the end of the first.
   */
  lemma IncreasingIsNotEnough(m: seq<byte>, img: seq<byte>)
    requires 1024 <= |m| <= TOP && 2048 <= |img|
    ensures var ss := [Segment(0, 600, 0), Segment(1000, 10, 1512)];
            && AllFit(ss, |m|, |img|) && AllAligned(ss) && ss[0].End() <= ss[1].pa
            && LoadAll(m, img, ss)[550] == img[1062]
            && (img[550] != img[1062] ==> LoadAll(m, img, ss)[ss[0].pa + 550] != img[ss[0].offset + 550])
  {
    var ss := [Segment(0, 600, 0), Segment(1000, 10, 1512)];
    assert ss[0].Fits(|m|, |img|) && ss[1].Fits(|m|, |img|);
    LoadAllAt(m, img, ss, 550);
    assert Writer(ss, 550) == 1;
  }

  lemma LoadableFits(img: seq<byte>, memory: nat)
    requires Loadable(img, memory) && Magic(img)
    ensures PAGE <= |img| && Phoff(img) + 32 * Phnum(img) <= PAGE
    ensures AllFit(Segments(img, Phnum(img)), memory, |img|)
  {
  }

  /**
   * The whole loader: when the table is intact until all is loaded, and aligned segments do each other no
   * harm, memory holds every byte of every segment that the image names.
   */
  lemma KernelLoaded(m: seq<byte>, img: seq<byte>, i: nat, k: nat)
    requires Loadable(img, |m|) && Magic(img)
    requires var ss := Segments(img, Phnum(img));
             Harmless(ss) && AllAligned(ss) && i < |ss| && k < ss[i].memsz
    ensures HEADER.Fits(|m|, |img|)
    ensures var m1, ph, n := Loaded(m, img, HEADER), ELFHDR + Phoff(img), Phnum(img);
            var s := Segments(img, n)[i];
            && TableFits(m1, img, ph, n)
            && s.pa + k < |m| && s.offset + k < |img|
            && LoadTable(m1, img, ph, n)[s.pa + k] == img[s.offset + k]
  {
    hide *;
    LoadableFits(img, |m|);
    TableIntact(m, img);
    AllSegmentsLoaded(Loaded(m, img, HEADER), img, Segments(img, Phnum(img)), i, k);
  }
}
