/**
 * The boot loader: whole sectors are read, from below the start of a segment to beyond
 * its end, and later segments write over what earlier ones left there.
 */
module Boot {
  import opened Slices

  const SECTSIZE: nat := 512
  const ELFHDR: nat := 0x10000
  const PAGE: nat := 4096
  const ELF_MAGIC: nat := 0x464C_457F
  /** With 32-bit addresses, room for one more sector so that the address cannot wrap. */
  const TOP: nat := 0xFFFF_FE00

  type byte = x: int | 0 <= x < 256

  /** What the loader uses of a program header. */
  datatype Segment = Segment(pa: nat, memsz: nat, offset: nat) {
    function End(): nat { pa + memsz }
    /** The span of memory that loading the segment writes. */
    function Lo(): nat { pa - pa % SECTSIZE }
    function Hi(): nat { (pa + memsz + SECTSIZE - 1) / SECTSIZE * SECTSIZE }
    /** Where in the image the sector starts that goes to the start of the span. */
    function From(): nat { offset - offset % SECTSIZE }

    ghost predicate Fits(memory: nat, image: nat) {
      Lo() <= Hi() <= memory <= TOP && From() + (Hi() - Lo()) <= image
    }
  }

  function Overwritten(m: seq<byte>, dst: nat, data: seq<byte>): (m': seq<byte>)
    requires dst + |data| <= |m|
    ensures |m'| == |m|
  {
    m[..dst] + data + m[dst + |data|..]
  }

  /** Memory after one segment has been loaded from the image. */
  function Loaded(m: seq<byte>, img: seq<byte>, s: Segment): (m': seq<byte>)
    requires s.Fits(|m|, |img|)
    ensures |m'| == |m|
  {
    Overwritten(m, s.Lo(), img[s.From()..s.From() + (s.Hi() - s.Lo())])
  }

  ghost predicate AllFit(ss: seq<Segment>, memory: nat, image: nat) {
    forall i | 0 <= i < |ss| :: ss[i].Fits(memory, image)
  }

  function LoadAll(m: seq<byte>, img: seq<byte>, ss: seq<Segment>): (m': seq<byte>)
    requires AllFit(ss, |m|, |img|)
    ensures |m'| == |m|
    decreases |ss|
  {
    if ss == [] then m else Loaded(LoadAll(m, img, ss[..|ss| - 1]), img, ss[|ss| - 1])
  }

  /** A 32-bit field, lowest byte first. */
  function U32(m: seq<byte>, a: nat): nat
    requires a + 4 <= |m|
  {
    m[a] as int + 0x100 * m[a + 1] as int + 0x1_0000 * m[a + 2] as int + 0x100_0000 * m[a + 3] as int
  }

  function U16(m: seq<byte>, a: nat): nat
    requires a + 2 <= |m|
  {
    m[a] as int + 0x100 * m[a + 1] as int
  }

  function SegmentAt(m: seq<byte>, a: nat): Segment
    requires a + 32 <= |m|
  {
    Segment(U32(m, a + 12), U32(m, a + 20), U32(m, a + 4))
  }

  function Phoff(img: seq<byte>): nat
    requires PAGE <= |img|
  {
    U32(img, 28)
  }

  function Phnum(img: seq<byte>): nat
    requires PAGE <= |img|
  {
    U16(img, 44)
  }

  ghost predicate Magic(img: seq<byte>)
    requires PAGE <= |img|
  {
    U32(img, 0) == ELF_MAGIC
  }

  /** The first `n` entries of the program header table. */
  function Segments(img: seq<byte>, n: nat): (ss: seq<Segment>)
    requires PAGE <= |img| && Phoff(img) + 32 * n <= PAGE
    ensures |ss| == n
  {
    if n == 0 then [] else Segments(img, n - 1) + [SegmentAt(img, Phoff(img) + 32 * (n - 1))]
  }

  ghost predicate MissesHeader(ss: seq<Segment>) {
    forall i | 0 <= i < |ss| :: ss[i].Hi() <= ELFHDR || ELFHDR + PAGE <= ss[i].Lo()
  }

  /** An image the loader can cope with: its table is in the first page and no segment goes over the copy of that. */
  ghost predicate Loadable(img: seq<byte>, memory: nat) {
    && PAGE <= |img| && ELFHDR + PAGE <= memory <= TOP
    && (Magic(img) ==>
          && Phoff(img) + 32 * Phnum(img) <= PAGE
          && AllFit(Segments(img, Phnum(img)), memory, |img|)
          && MissesHeader(Segments(img, Phnum(img))))
  }

  /** The kernel's image starts in the second sector of the disk. */
  function Image(disk: seq<byte>): seq<byte>
    requires SECTSIZE <= |disk|
  {
    disk[SECTSIZE..]
  }

  function Sectors(disk: seq<byte>, first: nat, count: nat): (data: seq<byte>)
    requires (first + count) * SECTSIZE <= |disk|
    ensures |data| == count * SECTSIZE
  {
    disk[first * SECTSIZE..(first + count) * SECTSIZE]
  }

  method Readsect(mem: array<byte>, dst: nat, disk: seq<byte>, sector: nat)
    requires dst + SECTSIZE <= mem.Length && (sector + 1) * SECTSIZE <= |disk|
    modifies mem
    ensures mem[..] == Overwritten(old(mem[..]), dst, Sectors(disk, sector, 1))
  {
    ghost var data := Sectors(disk, sector, 1);
    forall k | 0 <= k < SECTSIZE {
      mem[dst + k] := disk[sector * SECTSIZE + k];
    }
    assert mem[dst..dst + SECTSIZE] == data;
    assert mem[..dst] == old(mem[..dst]) && mem[dst + SECTSIZE..] == old(mem[dst + SECTSIZE..]);
    assert mem[..] == mem[..dst] + mem[dst..dst + SECTSIZE] + mem[dst + SECTSIZE..];
  }

  lemma OverwrittenTwice(m: seq<byte>, dst: nat, a: seq<byte>, b: seq<byte>)
    requires dst + |a| + |b| <= |m|
    ensures Overwritten(Overwritten(m, dst, a), dst + |a|, b) == Overwritten(m, dst, a + b)
  {
  }

  lemma OverwrittenNot(m: seq<byte>, dst: nat)
    requires dst <= |m|
    ensures Overwritten(m, dst, []) == m
  {
  }

  lemma SectorsMore(disk: seq<byte>, first: nat, n: nat)
    requires (first + n + 1) * SECTSIZE <= |disk|
    ensures Sectors(disk, first, n) + Sectors(disk, first + n, 1) == Sectors(disk, first, n + 1)
  {
    SliceJoin(disk, first * SECTSIZE, (first + n) * SECTSIZE, (first + n + 1) * SECTSIZE);
  }

  /** How many sectors a segment takes. */
  function Span(s: Segment): nat {
    if s.Lo() <= s.Hi() then (s.Hi() - s.Lo()) / SECTSIZE else 0
  }

  lemma SpanExact(s: Segment)
    ensures s.Hi() == s.Lo() + Span(s) * SECTSIZE
    ensures s.End() <= s.Hi() && (0 < Span(s) ==> s.Hi() - SECTSIZE < s.End())
  {
  }

  /** The sectors read for a segment are its part of the image. */
  lemma SpanOfImage(disk: seq<byte>, s: Segment, memory: nat)
    requires SECTSIZE <= |disk| && s.Fits(memory, |Image(disk)|)
    ensures (s.offset / SECTSIZE + 1 + Span(s)) * SECTSIZE <= |disk|
    ensures Sectors(disk, s.offset / SECTSIZE + 1, Span(s)) == Image(disk)[s.From()..s.From() + (s.Hi() - s.Lo())]
  {
    SpanExact(s);
    SliceSlice(disk, SECTSIZE, |disk|, s.From(), s.From() + (s.Hi() - s.Lo()));
  }

  /** The loop of `readseg`, which takes `count` turns. */
  method ReadSectors(mem: array<byte>, pa0: nat, endPa: nat, offset0: nat, disk: seq<byte>, ghost count: nat)
    requires pa0 + count * SECTSIZE <= mem.Length && (offset0 + count) * SECTSIZE <= |disk|
    requires endPa <= pa0 + count * SECTSIZE && (0 < count ==> pa0 + (count - 1) * SECTSIZE < endPa)
    modifies mem
    ensures mem[..] == Overwritten(old(mem[..]), pa0, Sectors(disk, offset0, count))
  {
    hide Overwritten, Sectors;
    var pa, offset := pa0, offset0;
    ghost var n := 0;
    OverwrittenNot(mem[..], pa);
    while pa < endPa
      invariant n <= count && pa == pa0 + n * SECTSIZE && offset == offset0 + n
      invariant mem[..] == Overwritten(old(mem[..]), pa0, Sectors(disk, offset0, n))
      decreases endPa - pa
    {
      SectorsMore(disk, offset0, n);
      OverwrittenTwice(old(mem[..]), pa0, Sectors(disk, offset0, n), Sectors(disk, offset, 1));
      Readsect(mem, pa, disk, offset);
      pa, offset, n := pa + SECTSIZE, offset + 1, n + 1;
    }
  }

  method Readseg(mem: array<byte>, pa: nat, count: nat, offset: nat, disk: seq<byte>)
    requires SECTSIZE <= |disk| && Segment(pa, count, offset).Fits(mem.Length, |Image(disk)|)
    modifies mem
    ensures mem[..] == Loaded(old(mem[..]), Image(disk), Segment(pa, count, offset))
  {
    ghost var s := Segment(pa, count, offset);
    SpanExact(s);
    SpanOfImage(disk, s, mem.Length);
    ReadSectors(mem, pa - pa % SECTSIZE, pa + count, offset / SECTSIZE + 1, disk, Span(s));
  }

  const HEADER := Segment(ELFHDR, PAGE, 0)

  /** The first page of the image is in its scratch place. */
  ghost predicate HasHeader(m: seq<byte>, img: seq<byte>) {
    PAGE <= |img| && ELFHDR + PAGE <= |m| && m[ELFHDR..ELFHDR + PAGE] == img[..PAGE]
  }

  lemma HeaderByte(m: seq<byte>, img: seq<byte>, a: nat)
    requires HasHeader(m, img) && a < PAGE
    ensures m[ELFHDR + a] == img[a]
  {
    assert m[ELFHDR..ELFHDR + PAGE][a] == img[..PAGE][a];
  }

  lemma HeaderField(m: seq<byte>, img: seq<byte>, a: nat)
    requires HasHeader(m, img) && a + 4 <= PAGE
    ensures U32(m, ELFHDR + a) == U32(img, a) && U16(m, ELFHDR + a) == U16(img, a)
  {
    HeaderByte(m, img, a);
    HeaderByte(m, img, a + 1);
    HeaderByte(m, img, a + 2);
    HeaderByte(m, img, a + 3);
  }

  lemma HeaderLoaded(m: seq<byte>, img: seq<byte>)
    requires PAGE <= |img| && ELFHDR + PAGE <= |m| <= TOP
    ensures HEADER.Fits(|m|, |img|) && HasHeader(Loaded(m, img, HEADER), img)
  {
    assert HEADER.Lo() == ELFHDR && HEADER.Hi() == ELFHDR + PAGE && HEADER.From() == 0;
  }

  lemma HeaderKept(m: seq<byte>, img: seq<byte>, s: Segment)
    requires HasHeader(m, img) && s.Fits(|m|, |img|)
    requires s.Hi() <= ELFHDR || ELFHDR + PAGE <= s.Lo()
    ensures HasHeader(Loaded(m, img, s), img)
  {
    var m' := Loaded(m, img, s);
    assert forall i | ELFHDR <= i < ELFHDR + PAGE :: m'[i] == m[i];
  }

  lemma {:induction false} SegmentsPrefix(img: seq<byte>, k: nat, n: nat)
    requires PAGE <= |img| && Phoff(img) + 32 * n <= PAGE && k <= n
    ensures Segments(img, n)[..k] == Segments(img, k)
    ensures k < n ==> Segments(img, n)[k] == SegmentAt(img, Phoff(img) + 32 * k)
    decreases n
  {
    if k < n {
      SegmentsPrefix(img, k, n - 1);
    }
  }

  /** The first `k` segments of an image that can be loaded are in memory, and the header is still in place. */
  ghost predicate Progress(m: seq<byte>, m1: seq<byte>, img: seq<byte>, k: nat) {
    && Loadable(img, |m1|) && Magic(img) && k <= Phnum(img)
    && |m| == |m1| && HasHeader(m, img)
    && AllFit(Segments(img, k), |m1|, |img|) && m == LoadAll(m1, img, Segments(img, k))
  }

  lemma ProgressNone(m1: seq<byte>, img: seq<byte>)
    requires Loadable(img, |m1|) && Magic(img) && HasHeader(m1, img)
    ensures Progress(m1, m1, img, 0)
  {
  }

  lemma TableEntry(m: seq<byte>, img: seq<byte>, a: nat)
    requires HasHeader(m, img) && a + 32 <= PAGE
    ensures ELFHDR + a + 32 <= |m| && SegmentAt(m, ELFHDR + a) == SegmentAt(img, a)
  {
    hide U32, U16;
    HeaderField(m, img, a + 4);
    HeaderField(m, img, a + 12);
    HeaderField(m, img, a + 20);
  }

  lemma Advance(m: seq<byte>, m1: seq<byte>, img: seq<byte>, k: nat)
    requires PAGE <= |img| && k < Phnum(img) && Progress(m, m1, img, k)
    ensures var a := Phoff(img) + 32 * k;
            && a + 32 <= PAGE && HasHeader(m, img)
            && SegmentAt(img, a).Fits(|m|, |img|)
            && Progress(Loaded(m, img, SegmentAt(img, a)), m1, img, k + 1)
  {
    hide U32, U16, Loaded, Segment.Fits, HasHeader, Magic;
    var ss, s := Segments(img, Phnum(img)), SegmentAt(img, Phoff(img) + 32 * k);
    SegmentsPrefix(img, k, Phnum(img));
    SegmentsPrefix(img, k + 1, Phnum(img));
    assert ss[k] == s;
    HeaderKept(m, img, s);
    var next := Segments(img, k + 1);
    assert next[..|next| - 1] == Segments(img, k);
    assert AllFit(next, |m1|, |img|) by {
      assert forall i | 0 <= i < |next| :: next[i] == ss[i];
    }
  }

  /** Memory, disk and the program header table at `ph` are such that no access falls outside them. */
  ghost predicate TableFits(m: seq<byte>, img: seq<byte>, ph: nat, n: nat)
    decreases n
  {
    0 < n ==>
      && ph + 32 <= |m| && SegmentAt(m, ph).Fits(|m|, |img|)
      && TableFits(Loaded(m, img, SegmentAt(m, ph)), img, ph + 32, n - 1)
  }

  /** Memory after `n` entries of the table at `ph`, each read from memory as it is by then. */
  ghost function LoadTable(m: seq<byte>, img: seq<byte>, ph: nat, n: nat): (m': seq<byte>)
    requires TableFits(m, img, ph, n)
    ensures |m'| == |m|
    decreases n
  {
    if n == 0 then m else LoadTable(Loaded(m, img, SegmentAt(m, ph)), img, ph + 32, n - 1)
  }

  /** `bootmain`, up to the jump: the entry point, or nothing for an image that is no ELF file. */
  method Bootmain(mem: array<byte>, disk: seq<byte>) returns (ok: bool, entry: nat)
    requires SECTSIZE <= |disk| && PAGE <= |Image(disk)| && ELFHDR + PAGE <= mem.Length <= TOP
    requires HEADER.Fits(mem.Length, |Image(disk)|)
    requires var img := Image(disk);
             Magic(img) ==>
               TableFits(Loaded(mem[..], img, HEADER), img, ELFHDR + Phoff(img), Phnum(img))
    modifies mem
    ensures var img := Image(disk);
            var m1 := Loaded(old(mem[..]), img, HEADER);
            && ok == Magic(img)
            && (ok ==> mem[..] == LoadTable(m1, img, ELFHDR + Phoff(img), Phnum(img)))
            && (ok ==> entry == U32(mem[..], ELFHDR + 24))
            && (!ok ==> mem[..] == m1)
  {
    hide U32, U16, Loaded, Image, HasHeader, Segment.Fits;
    ghost var img := Image(disk);
    HeaderLoaded(mem[..], img);
    Readseg(mem, ELFHDR, PAGE, 0, disk);
    ghost var m1 := mem[..];
    HeaderField(m1, img, 0);
    if U32(mem[..], ELFHDR) != ELF_MAGIC {
      return false, 0;
    }
    HeaderField(m1, img, 28);
    HeaderField(m1, img, 44);
    var ph := ELFHDR + U32(mem[..], ELFHDR + 28);
    var eph := ph + 32 * U16(mem[..], ELFHDR + 44);
    ghost var left := Phnum(img);
    while ph < eph
      invariant eph == ph + 32 * left && TableFits(mem[..], img, ph, left)
      invariant LoadTable(mem[..], img, ph, left) == LoadTable(m1, img, ELFHDR + Phoff(img), Phnum(img))
      decreases eph - ph
    {
      Readseg(mem, U32(mem[..], ph + 12), U32(mem[..], ph + 20), U32(mem[..], ph + 4), disk);
      ph, left := ph + 32, left - 1;
    }
    ok, entry := true, U32(mem[..], ELFHDR + 24);
  }

  lemma TableEnd(m: seq<byte>, img: seq<byte>, ph: nat)
    ensures TableFits(m, img, ph, 0) && LoadTable(m, img, ph, 0) == m
  {
  }

  lemma TableStep(m: seq<byte>, img: seq<byte>, ph: nat, n: nat)
    requires 0 < n && ph + 32 <= |m| && SegmentAt(m, ph).Fits(|m|, |img|)
    requires TableFits(Loaded(m, img, SegmentAt(m, ph)), img, ph + 32, n - 1)
    ensures TableFits(m, img, ph, n)
    ensures LoadTable(m, img, ph, n) == LoadTable(Loaded(m, img, SegmentAt(m, ph)), img, ph + 32, n - 1)
  {
    hide Loaded, Segment.Fits, SegmentAt;
  }

  /** From the `k`th segment on, the table in memory is that of the image. */
  lemma {:induction false} TableFrom(m: seq<byte>, m1: seq<byte>, img: seq<byte>, k: nat, ph: nat, left: nat)
    requires PAGE <= |img| && ph == ELFHDR + Phoff(img) + 32 * k && k + left == Phnum(img)
    requires Progress(m, m1, img, k)
    ensures TableFits(m, img, ph, left) && Progress(LoadTable(m, img, ph, left), m1, img, Phnum(img))
    decreases left
  {
    hide U32, U16, Loaded, Segment.Fits, Progress, HasHeader, Phoff, Phnum, TableFits, LoadTable, SegmentAt;
    if left == 0 {
      TableEnd(m, img, ph);
    } else {
      var a := Phoff(img) + 32 * k;
      Advance(m, m1, img, k);
      TableEntry(m, img, a);
      TableFrom(Loaded(m, img, SegmentAt(img, a)), m1, img, k + 1, ph + 32, left - 1);
      TableStep(m, img, ph, left);
    }
  }

  /**
   * When the table is in the first page and no segment goes over the copy of that, the table stays as
   * it is on the disk: the segments named there are loaded in order, and the entry point is the one there.
   */
  lemma TableIntact(m: seq<byte>, img: seq<byte>)
    requires Loadable(img, |m|) && Magic(img)
    ensures HEADER.Fits(|m|, |img|)
    ensures var m1, ph, n := Loaded(m, img, HEADER), ELFHDR + Phoff(img), Phnum(img);
            && TableFits(m1, img, ph, n)
            && LoadTable(m1, img, ph, n) == LoadAll(m1, img, Segments(img, n))
            && U32(LoadTable(m1, img, ph, n), ELFHDR + 24) == U32(img, 24)
  {
    hide U32, U16, Loaded, Segment.Fits, Segments, LoadTable, TableFits, HasHeader, Magic, MissesHeader, AllFit;
    HeaderLoaded(m, img);
    var m1 := Loaded(m, img, HEADER);
    ProgressNone(m1, img);
    TableFrom(m1, m1, img, 0, ELFHDR + Phoff(img), Phnum(img));
    HeaderField(LoadTable(m1, img, ELFHDR + Phoff(img), Phnum(img)), img, 24);
  }
}
