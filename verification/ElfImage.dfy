/** Images in the ELF format, field by field, and what the boot loader makes of them. */
module ElfImage {
  import opened Int32
  import opened Slices
  import opened Boot
  import opened BootTheorems

  type uint16 = x: int | 0 <= x < 0x1_0000

  type Ident = s: seq<byte> | |s| == 12 witness seq(12, _ => 0)

  /** The header, in the order of its declaration, after the four magic bytes. */
  datatype Elf = Elf(elf: Ident, etype: uint16, machine: uint16, version: uint32, entry: uint32, phoff: uint32,
                     shoff: uint32, flags: uint32, ehsize: uint16, phentsize: uint16, phnum: uint16,
                     shentsize: uint16, shnum: uint16, shstrndx: uint16)

  datatype Proghdr = Proghdr(ptype: uint32, offset: uint32, va: uint32, pa: uint32, filesz: uint32, memsz: uint32,
                             flags: uint32, align: uint32)

  /** A number in `count` bytes, the lowest first. */
  function LowestFirst(n: nat, count: nat): (bs: seq<byte>)
    ensures |bs| == count
  {
    if count == 0 then [] else [n % 256] + LowestFirst(n / 256, count - 1)
  }

  const MAGIC_BYTES: seq<byte> := [0x7F, 'E' as int, 'L' as int, 'F' as int]

  function HeaderStart(h: Elf): (bs: seq<byte>)
    ensures |bs| == 24
  {
    MAGIC_BYTES + h.elf + LowestFirst(h.etype, 2) + LowestFirst(h.machine, 2) + LowestFirst(h.version, 4)
  }

  function HeaderMiddle(h: Elf): (bs: seq<byte>)
    ensures |bs| == 20
  {
    LowestFirst(h.entry, 4) + LowestFirst(h.phoff, 4) + LowestFirst(h.shoff, 4) + LowestFirst(h.flags, 4)
    + LowestFirst(h.ehsize, 2) + LowestFirst(h.phentsize, 2)
  }

  function HeaderEnd(h: Elf): (bs: seq<byte>)
    ensures |bs| == 8
  {
    LowestFirst(h.phnum, 2) + LowestFirst(h.shentsize, 2) + LowestFirst(h.shnum, 2) + LowestFirst(h.shstrndx, 2)
  }

  /** A header as it lies on the disk. */
  function HeaderBytes(h: Elf): (bs: seq<byte>)
    ensures |bs| == 52
  {
    HeaderStart(h) + HeaderMiddle(h) + HeaderEnd(h)
  }

  function EntryBytes(p: Proghdr): (bs: seq<byte>)
    ensures |bs| == 32
  {
    LowestFirst(p.ptype, 4) + LowestFirst(p.offset, 4) + LowestFirst(p.va, 4) + LowestFirst(p.pa, 4)
    + LowestFirst(p.filesz, 4) + LowestFirst(p.memsz, 4) + LowestFirst(p.flags, 4) + LowestFirst(p.align, 4)
  }

  function TableBytes(ps: seq<Proghdr>): (bs: seq<byte>)
    ensures |bs| == 32 * |ps|
  {
    if ps == [] then [] else TableBytes(ps[..|ps| - 1]) + EntryBytes(ps[|ps| - 1])
  }

  /** The image starts with this header and has this table, all of it in the first page. */
  ghost predicate Holds(img: seq<byte>, h: Elf, ps: seq<Proghdr>) {
    && PAGE <= |img| && img[..52] == HeaderBytes(h)
    && h.phnum == |ps| && h.phoff + 32 * |ps| <= PAGE
    && img[h.phoff..h.phoff + 32 * |ps|] == TableBytes(ps)
  }

  /** The segments that a table names. */
  function SegmentsOf(ps: seq<Proghdr>): (ss: seq<Segment>)
    ensures |ss| == |ps|
  {
    seq(|ps|, i requires 0 <= i < |ps| => Segment(ps[i].pa, ps[i].memsz, ps[i].offset))
  }

  lemma FourBytes(n: uint32)
    ensures var b := LowestFirst(n, 4);
            b[0] as int + 0x100 * b[1] as int + 0x1_0000 * b[2] as int + 0x100_0000 * b[3] as int == n
  {
    var b := LowestFirst(n, 4);
    var n1 := n / 256;
    var n2 := n1 / 256;
    var n3 := n2 / 256;
    assert LowestFirst(n3, 1) == [n3 % 256] + LowestFirst(n3 / 256, 0) == [n3 % 256];
    assert LowestFirst(n2, 2) == [n2 % 256] + LowestFirst(n3, 1) == [n2 % 256, n3 % 256];
    assert LowestFirst(n1, 3) == [n1 % 256] + LowestFirst(n2, 2) == [n1 % 256, n2 % 256, n3 % 256];
    assert b == [n % 256, n1 % 256, n2 % 256, n3 % 256];
  }

  lemma TwoBytes(n: uint16)
    ensures var b := LowestFirst(n, 2); b[0] as int + 0x100 * b[1] as int == n
  {
    assert LowestFirst(n / 256, 1) == [n / 256 % 256] + LowestFirst(n / 256 / 256, 0);
  }

  /** A field that lies in memory is read back. */
  lemma ReadsFour(m: seq<byte>, a: nat, n: uint32)
    requires a + 4 <= |m| && m[a..a + 4] == LowestFirst(n, 4)
    ensures U32(m, a) == n
  {
    FourBytes(n);
    var b := m[a..a + 4];
    assert b[0] == m[a] && b[1] == m[a + 1] && b[2] == m[a + 2] && b[3] == m[a + 3];
    hide LowestFirst;
  }

  lemma ReadsTwo(m: seq<byte>, a: nat, n: uint16)
    requires a + 2 <= |m| && m[a..a + 2] == LowestFirst(n, 2)
    ensures U16(m, a) == n
  {
    TwoBytes(n);
    var b := m[a..a + 2];
    assert b[0] == m[a] && b[1] == m[a + 1];
    hide LowestFirst;
  }

  /** The magic number is recognized exactly in images that start with the four bytes. */
  lemma MagicIs(img: seq<byte>)
    requires PAGE <= |img|
    ensures Magic(img) <==> img[..4] == MAGIC_BYTES
  {
    var b := img[..4];
    assert b[0] == img[0] && b[1] == img[1] && b[2] == img[2] && b[3] == img[3];
    if Magic(img) {
      assert img[0] == 0x7F;
      assert img[1] == 0x45;
      assert img[2] == 0x4C;
      assert img[3] == 0x46;
    }
  }

  lemma MiddleFields(h: Elf)
    ensures var b := HeaderMiddle(h); b[0..4] == LowestFirst(h.entry, 4) && b[4..8] == LowestFirst(h.phoff, 4)
  {
    hide LowestFirst;
  }

  lemma EndFields(h: Elf)
    ensures HeaderEnd(h)[0..2] == LowestFirst(h.phnum, 2)
  {
    hide LowestFirst;
  }

  lemma EntryFields(p: Proghdr)
    ensures var b := EntryBytes(p);
            && b[4..8] == LowestFirst(p.offset, 4)
            && b[12..16] == LowestFirst(p.pa, 4) && b[20..24] == LowestFirst(p.memsz, 4)
  {
    hide LowestFirst;
  }

  lemma HeaderParts(h: Elf)
    ensures var b := HeaderBytes(h);
            b[..4] == MAGIC_BYTES && b[24..44] == HeaderMiddle(h) && b[44..52] == HeaderEnd(h)
  {
    hide LowestFirst, HeaderMiddle, HeaderEnd;
    assert HeaderBytes(h)[..24] == HeaderStart(h);
    assert HeaderStart(h)[..4] == MAGIC_BYTES;
    assert HeaderBytes(h)[..24][..4] == HeaderBytes(h)[..4];
  }

  lemma HeaderSlices(img: seq<byte>, h: Elf)
    requires 52 <= |img| && img[..52] == HeaderBytes(h)
    ensures img[..4] == MAGIC_BYTES
    ensures img[24..28] == LowestFirst(h.entry, 4) && img[28..32] == LowestFirst(h.phoff, 4)
    ensures img[44..46] == LowestFirst(h.phnum, 2)
  {
    hide HeaderBytes, HeaderMiddle, HeaderEnd, LowestFirst;
    HeaderParts(h);
    MiddleFields(h);
    EndFields(h);
    var b := HeaderBytes(h);
    assert img[..4] == b[..4];
    assert img[24..44] == b[24..44] && img[44..52] == b[44..52];
    SliceSlice(img, 24, 44, 0, 4);
    SliceSlice(img, 24, 44, 4, 8);
    SliceSlice(img, 44, 52, 0, 2);
  }

  /** Magic number, entry point, place and length of the table are those of the header. */
  lemma HeaderRead(img: seq<byte>, h: Elf)
    requires PAGE <= |img| && img[..52] == HeaderBytes(h)
    ensures Magic(img) && U32(img, 24) == h.entry && Phoff(img) == h.phoff && Phnum(img) == h.phnum
  {
    hide HeaderBytes, LowestFirst, U32, U16, Magic;
    HeaderSlices(img, h);
    MagicIs(img);
    ReadsFour(img, 24, h.entry);
    ReadsFour(img, 28, h.phoff);
    ReadsTwo(img, 44, h.phnum);
  }

  lemma {:induction false} TableAt(ps: seq<Proghdr>, k: nat)
    requires k < |ps|
    ensures TableBytes(ps)[32 * k..32 * k + 32] == EntryBytes(ps[k])
    decreases |ps|
  {
    hide EntryBytes;
    var n := |ps| - 1;
    if k < n {
      TableAt(ps[..n], k);
      assert TableBytes(ps)[32 * k..32 * k + 32] == TableBytes(ps[..n])[32 * k..32 * k + 32];
    }
  }

  /** An entry of the table names the physical address, the size in memory and the offset in the file. */
  lemma EntryRead(m: seq<byte>, a: nat, p: Proghdr)
    requires a + 32 <= |m| && m[a..a + 32] == EntryBytes(p)
    ensures SegmentAt(m, a) == Segment(p.pa, p.memsz, p.offset)
  {
    hide EntryBytes, LowestFirst, U32;
    EntryFields(p);
    SliceSlice(m, a, a + 32, 4, 8);
    SliceSlice(m, a, a + 32, 12, 16);
    SliceSlice(m, a, a + 32, 20, 24);
    ReadsFour(m, a + 4, p.offset);
    ReadsFour(m, a + 12, p.pa);
    ReadsFour(m, a + 20, p.memsz);
  }

  /** The loader reads an image as it was written. */
  lemma ImageRead(img: seq<byte>, h: Elf, ps: seq<Proghdr>)
    requires Holds(img, h, ps)
    ensures Magic(img) && U32(img, 24) == h.entry && Phoff(img) == h.phoff && Phnum(img) == |ps|
    ensures Segments(img, |ps|) == SegmentsOf(ps)
  {
    hide HeaderBytes, TableBytes, EntryBytes, U32, SegmentAt, Segments, Phoff, Phnum;
    HeaderRead(img, h);
    var t := 32 * |ps|;
    forall k | 0 <= k < |ps|
      ensures Segments(img, |ps|)[k] == SegmentsOf(ps)[k]
    {
      SegmentsPrefix(img, k, |ps|);
      TableAt(ps, k);
      SliceSlice(img, h.phoff, h.phoff + t, 32 * k, 32 * k + 32);
      EntryRead(img, h.phoff + 32 * k, ps[k]);
    }
  }

  /** Memory and disk hold all that is read, the copy of the header is not written over, and the order is harmless. */
  ghost predicate WellPlaced(ps: seq<Proghdr>, memory: nat, image: nat) {
    var ss := SegmentsOf(ps);
    && PAGE <= image && ELFHDR + PAGE <= memory <= TOP
    && AllFit(ss, memory, image) && MissesHeader(ss) && AllAligned(ss) && Harmless(ss)
  }

  lemma ImageLoadable(img: seq<byte>, h: Elf, ps: seq<Proghdr>, memory: nat)
    requires Holds(img, h, ps) && WellPlaced(ps, memory, |img|)
    ensures Loadable(img, memory)
  {
    hide HeaderBytes, TableBytes, U32, Segments, Harmless, AllAligned, AllFit, MissesHeader, Phoff, Phnum;
    ImageRead(img, h, ps);
  }

  /** What is true of memory once the segments named by the table are loaded. */
  lemma {:induction false} SegmentsInMemory(m: seq<byte>, img: seq<byte>, h: Elf, ps: seq<Proghdr>, i: nat, k: nat)
    requires Holds(img, h, ps) && WellPlaced(ps, |m|, |img|) && i < |ps| && k < ps[i].memsz
    ensures HEADER.Fits(|m|, |img|) && Magic(img) && Phoff(img) == h.phoff && Phnum(img) == |ps|
    ensures var m1, ph := Loaded(m, img, HEADER), ELFHDR + h.phoff;
            && TableFits(m1, img, ph, |ps|)
            && ps[i].pa + k < |m| && ps[i].offset + k < |img|
            && var end := LoadTable(m1, img, ph, |ps|);
               end[ps[i].pa + k] == img[ps[i].offset + k] && U32(end, ELFHDR + 24) == h.entry
  {
    hide Holds, Segments, U32, Harmless, AllAligned, AllFit, MissesHeader, LoadTable, TableFits, Loaded, Phoff, Phnum,
      Segment.Fits, Magic;
    ImageRead(img, h, ps);
    ImageLoadable(img, h, ps, |m|);
    TableIntact(m, img);
    KernelLoaded(m, img, i, k);
  }

  /** The image follows the disk's first sector. */
  lemma ImageByte(disk: seq<byte>, x: nat)
    requires SECTSIZE <= |disk| && x < |Image(disk)|
    ensures 512 + x < |disk| && Image(disk)[x] == disk[512 + x]
  {
  }

  /**
   * What the loader leaves of a kernel that starts in the disk's second sector: every byte of every segment, at
   * its physical address, is the one at its offset in the file, and control goes to the entry point.
   */
  lemma {:induction false} KernelInMemory(m: seq<byte>, disk: seq<byte>, h: Elf, ps: seq<Proghdr>, i: nat, k: nat)
    requires SECTSIZE <= |disk| && Holds(Image(disk), h, ps) && WellPlaced(ps, |m|, |Image(disk)|)
    requires i < |ps| && k < ps[i].memsz
    ensures HEADER.Fits(|m|, |Image(disk)|) && Magic(Image(disk))
    ensures Phoff(Image(disk)) == h.phoff && Phnum(Image(disk)) == |ps|
    ensures var m1, ph := Loaded(m, Image(disk), HEADER), ELFHDR + h.phoff;
            && TableFits(m1, Image(disk), ph, |ps|)
            && ps[i].pa + k < |m| && 512 + ps[i].offset + k < |disk|
            && var end := LoadTable(m1, Image(disk), ph, |ps|);
               end[ps[i].pa + k] == disk[512 + ps[i].offset + k] && U32(end, ELFHDR + 24) == h.entry
  {
    hide *;
    SegmentsInMemory(m, Image(disk), h, ps, i, k);
    ImageByte(disk, ps[i].offset + k);
  }

  /** One program header, and the segment it stands for. */
  lemma EntryExample(m: seq<byte>)
    requires 32 <= |m| && m[..32] == EntryBytes(Proghdr(1, 0x1000, 0x20_0000, 0x10_0000, 0x600, 0x600, 5, 0x1000))
    ensures SegmentAt(m, 0) == Segment(0x10_0000, 0x600, 0x1000)
  {
    hide EntryBytes, U32;
    assert m[0..32] == m[..32];
    EntryRead(m, 0, Proghdr(1, 0x1000, 0x20_0000, 0x10_0000, 0x600, 0x600, 5, 0x1000));
  }
}
