/** `memset`: by words that hold the byte four times, or by bytes, with the same outcome. */
module Memset {
  import Memory

  type byte = bv8

  function LowByte(c: bv32): byte { (c & 0xff) as bv8 }

  /** The byte repeated over a word. */
  function Replicated(c: bv32): bv32 {
    var b := c & 0xff;
    (b << 24) | (b << 16) | (b << 8) | b
  }

  /** A word as it lies in memory, lowest byte first. */
  function WordBytes(w: bv32): (bs: seq<byte>)
    ensures |bs| == 4
  {
    [LowByte(w), LowByte(w >> 8), LowByte(w >> 16), LowByte(w >> 24)]
  }

  lemma ReplicatedBytes(c: bv32)
    ensures WordBytes(Replicated(c)) == [LowByte(c), LowByte(c), LowByte(c), LowByte(c)]
  {
  }

  function Fill(b: byte, n: nat): seq<byte> { seq(n, _ => b) }

  /** Memory after `n` cells from `v` on have been set. */
  function Filled(m: seq<byte>, v: nat, b: byte, n: nat): seq<byte>
    requires v + n <= |m|
  {
    m[..v] + Fill(b, n) + m[v + n..]
  }

  lemma NothingFilled(m: seq<byte>, v: nat, b: byte)
    requires v <= |m|
    ensures Filled(m, v, b, 0) == m
  {
  }

  /** The cells asked for hold the byte, all others what they held. */
  lemma FilledAt(m: seq<byte>, v: nat, b: byte, n: nat, x: nat)
    requires v + n <= |m| && x < |m|
    ensures |Filled(m, v, b, n)| == |m| && Filled(m, v, b, n)[x] == if v <= x < v + n then b else m[x]
  {
  }

  lemma FillMore(m: seq<byte>, v: nat, b: byte, done: nat, w: nat)
    requires v + done + w <= |m|
    ensures var now := Filled(m, v, b, done);
            |now| == |m| && now[..v + done] + Fill(b, w) + now[v + done + w..] == Filled(m, v, b, done + w)
  {
  }

  method StoreWord(mem: array<byte>, d: nat, word: seq<byte>)
    requires d + |word| <= mem.Length
    modifies mem
    ensures mem[..] == old(mem[..])[..d] + word + old(mem[..])[d + |word|..]
  {
    forall k | 0 <= k < |word| {
      mem[d + k] := word[k];
    }
    assert mem[d..d + |word|] == word;
    assert mem[..] == mem[..d] + mem[d..d + |word|] + mem[d + |word|..];
  }

  /** `rep stos`, for words of `w` equal bytes. */
  method RepStore(mem: array<byte>, v: nat, word: seq<byte>, count: nat, b: byte, w: nat)
    requires v + count * w <= mem.Length && word == Fill(b, w) && |word| == w
    modifies mem
    ensures mem[..] == Filled(old(mem[..]), v, b, count * w)
  {
    hide Filled, Fill;
    var d, c := v, count;
    ghost var n := count * w;
    ghost var left := n;
    NothingFilled(mem[..], v, b);
    while c > 0
      invariant 0 <= c && left == c * w && left <= n && d == v + (n - left)
      invariant mem[..] == Filled(old(mem[..]), v, b, n - left)
    {
      Memory.OneWordLess(c, w);
      FillMore(old(mem[..]), v, b, n - left, w);
      StoreWord(mem, d, word);
      d, c, left := d + w, c - 1, left - w;
    }
  }

  method Memset(mem: array<byte>, v: nat, c: bv32, n: nat)
    requires v + n <= mem.Length
    modifies mem
    ensures mem[..] == Filled(old(mem[..]), v, LowByte(c), n)
  {
    if n == 0 {
      NothingFilled(mem[..], v, LowByte(c));
      return;
    }
    if v % 4 == 0 && n % 4 == 0 {
      ReplicatedBytes(c);
      RepStore(mem, v, WordBytes(Replicated(c)), n / 4, LowByte(c), 4);
    } else {
      RepStore(mem, v, [LowByte(c)], n, LowByte(c), 1);
    }
  }
}
