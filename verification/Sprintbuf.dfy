/** `vsnprintf`: the format interpreter with a bounded buffer as its sink. */
module Sprintbuf {
  import opened CStrings
  import opened Int32
  import opened Printfmt
  import Vprintfmt

  const E_INVAL: int := 3

  /** What a store to a `char` keeps. */
  function ToChar(ch: int): int {
    (ch + 128) % 256 - 128
  }

  function Stored(out: seq<int>): (s: seq<int>)
    ensures |s| == |out|
  {
    if out == [] then [] else Stored(out[..|out| - 1]) + [ToChar(out[|out| - 1])]
  }

  /** A character of the range of a `char` is stored as it is, any other by its low eight bits. */
  lemma ToCharIs(ch: int)
    ensures -128 <= ToChar(ch) <= 127 && (ToChar(ch) - ch) % 256 == 0
    ensures ToChar(ch) == ch <==> -128 <= ch <= 127
  {
  }

  /** What is stored is the text itself exactly when all its characters are of that range. */
  lemma {:induction false} StoredAsIs(out: seq<int>)
    ensures Stored(out) == out <==> forall i | 0 <= i < |out| :: -128 <= out[i] <= 127
    decreases |out|
  {
    if out != [] {
      hide ToChar;
      var before, last := out[..|out| - 1], out[|out| - 1];
      assert out == before + [last];
      StoredAsIs(before);
      ToCharIs(last);
      assert Stored(out)[..|out| - 1] == Stored(before) && Stored(out)[|out| - 1] == ToChar(last);
    }
  }

  function Min(a: int, b: int): int {
    if a < b then a else b
  }

  /** The destination after `out` has been offered to it: the first characters of that, as many as `room` allows. */
  function Filled(was: seq<int>, out: seq<int>, room: nat): seq<int>
    requires room <= |was|
  {
    var k := Min(|out|, room);
    Stored(out[..k]) + was[k..]
  }

  lemma NothingFilled(was: seq<int>, room: nat)
    requires room <= |was|
    ensures Filled(was, [], room) == was
  {
  }

  lemma FilledMore(was: seq<int>, out: seq<int>, ch: int, room: nat)
    requires room <= |was|
    ensures |Filled(was, out, room)| == |was|
    ensures Filled(was, out + [ch], room) ==
            if |out| < room then Filled(was, out, room)[|out| := ToChar(ch)] else Filled(was, out, room)
  {
    hide ToChar;
    if |out| < room {
      assert (out + [ch])[..|out| + 1][..|out|] == out[..|out|] == out;
    } else {
      assert (out + [ch])[..room] == out[..room];
    }
  }

  lemma Closed(was: seq<int>, out: seq<int>, room: nat)
    requires room < |was|
    ensures var k := Min(|out|, room);
            |Filled(was, out, room)| == |was| &&
            Filled(was, out, room)[k := 0] == Stored(out[..k]) + [0] + was[k + 1..]
  {
  }

  class SprintBuf {
    const mem: array<int>
    /** `buf` and `ebuf` as offsets. */
    var buf: nat
    const ebuf: nat
    var cnt: int

    constructor (mem: array<int>, n: nat)
      requires 1 <= n <= mem.Length
      ensures this.mem == mem && buf == 0 && ebuf == n - 1 && cnt == 0
    {
      this.mem := mem;
      buf, ebuf, cnt := 0, n - 1, 0;
    }

    method SprintPutch(ch: int, ghost was: seq<int>, ghost out: seq<int>)
      requires ebuf < mem.Length && |was| == mem.Length
      requires cnt == Wrapped(|out|) && buf == Min(|out|, ebuf) && mem[..] == Filled(was, out, ebuf)
      modifies this`buf, this`cnt, mem
      ensures cnt == Wrapped(|out| + 1) && buf == Min(|out| + 1, ebuf) && mem[..] == Filled(was, out + [ch], ebuf)
    {
      hide Filled, Wrapped, ToChar;
      WrappedDigit(|out|, 1, 1);
      FilledMore(was, out, ch, ebuf);
      cnt := Wrapped(cnt + 1);
      if buf < ebuf {
        mem[buf] := ToChar(ch);
        buf := buf + 1;
      }
    }
  }

  /** Everything the interpreter puts out goes to the buffer, one character after another. */
  method PutAll(b: SprintBuf, out: seq<int>)
    requires b.ebuf < b.mem.Length && b.cnt == b.buf == 0
    modifies b, b.mem
    ensures b.cnt == Wrapped(|out|) && b.buf == Min(|out|, b.ebuf)
    ensures b.mem[..] == Filled(old(b.mem[..]), out, b.ebuf)
  {
    hide Filled;
    var j := 0;
    NothingFilled(b.mem[..], b.ebuf);
    while j < |out|
      invariant 0 <= j <= |out|
      invariant b.cnt == Wrapped(j) && b.buf == Min(j, b.ebuf) && b.mem[..] == Filled(old(b.mem[..]), out[..j], b.ebuf)
    {
      assert out[..j + 1] == out[..j] + [out[j]];
      b.SprintPutch(out[j], old(b.mem[..]), out[..j]);
      j := j + 1;
    }
    assert out[..j] == out;
  }

  /**
   * For a buffer of size `n`: the first n - 1 characters of the rendering and a NUL,
   * the rest of the buffer as it was, and the length, as an `int`, of the whole rendering.
   */
  method Vsnprintf(mem: array?<int>, n: int, fmt: string, args: seq<Arg>) returns (matched: bool, rc: int)
    requires Terminated(fmt, '\0')
    requires mem != null ==> n <= mem.Length
    modifies if mem == null then {} else {mem}
    ensures matched <==> mem == null || n < 1 || Render(fmt, 0, args).Rendered?
    ensures mem == null || n < 1 ==> rc == -E_INVAL && (mem != null ==> mem[..] == old(mem[..]))
    ensures mem != null && 1 <= n && matched ==>
              var out := Render(fmt, 0, args).out;
              var k := Min(|out|, n - 1);
              rc == Wrapped(|out|) && mem[..] == Stored(out[..k]) + [0] + old(mem[..])[k + 1..]
  {
    hide Filled, Stored, Render, Terminated;
    if mem == null || n < 1 {
      return true, -E_INVAL;
    }
    ghost var was := mem[..];
    var r := Vprintfmt.Vprintfmt(fmt, args);
    if r.Mismatch? {
      return false, 0;
    }
    var b := new SprintBuf(mem, n);
    PutAll(b, r.out);
    Closed(was, r.out, n - 1);
    assert mem[..] == Filled(was, r.out, n - 1);
    mem[b.buf] := 0;
    assert mem[..] == Filled(was, r.out, n - 1)[b.buf := 0];
    matched, rc := true, b.cnt;
  }
}
