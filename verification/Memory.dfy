/**
 * `memmove`: forward or backward, by words or by single cells, all with the
 * same outcome.  A cell is a byte and a word four of them, unless the caller
 * works in larger units.
 */
module Memory {

  /** Memory after the cells [src, src + n) have been copied, from a snapshot, to `dst`. */
  function Moved<T>(m: seq<T>, dst: nat, src: nat, n: nat): (m': seq<T>)
    requires dst + n <= |m| && src + n <= |m|
    ensures |m'| == |m|
  {
    m[..dst] + m[src..src + n] + m[dst + n..]
  }

  lemma MovedAt<T>(m: seq<T>, dst: nat, src: nat, n: nat, x: nat)
    requires dst + n <= |m| && src + n <= |m| && x < |m|
    ensures Moved(m, dst, src, n)[x] == if dst <= x < dst + n then m[x + (src - dst)] else m[x]
  {
  }

  lemma MovedNone<T>(m: seq<T>, dst: nat, src: nat)
    requires dst <= |m| && src <= |m|
    ensures Moved(m, dst, src, 0) == m
  {
  }

  /** Copying a first word and then the rest, upward: right unless the source lies below and overlaps. */
  lemma FirstThenRest<T>(m: seq<T>, d: nat, s: nat, w: nat, n: nat)
    requires w <= n && d + n <= |m| && s + n <= |m|
    requires d <= s || s + n <= d
    ensures Moved(Moved(m, d, s, w), d + w, s + w, n - w) == Moved(m, d, s, n)
  {
    var one := Moved(m, d, s, w);
    var x, y := Moved(one, d + w, s + w, n - w), Moved(m, d, s, n);
    forall i | 0 <= i < |m|
      ensures x[i] == y[i]
    {
      MovedAt(one, d + w, s + w, n - w, i);
      MovedAt(m, d, s, n, i);
      MovedAt(m, d, s, w, i);
      if d + w <= i < d + n {
        MovedAt(m, d, s, w, i + (s - d));
      }
    }
  }

  /** Copying a last word and then the rest, downward: right when the source does not lie above. */
  lemma LastThenRest<T>(m: seq<T>, d: nat, s: nat, w: nat, n: nat)
    requires w <= n && d + n <= |m| && s + n <= |m|
    requires s <= d
    ensures Moved(Moved(m, d + n - w, s + n - w, w), d, s, n - w) == Moved(m, d, s, n)
  {
    var one := Moved(m, d + n - w, s + n - w, w);
    var x, y := Moved(one, d, s, n - w), Moved(m, d, s, n);
    forall i | 0 <= i < |m|
      ensures x[i] == y[i]
    {
      MovedAt(one, d, s, n - w, i);
      MovedAt(m, d, s, n, i);
      MovedAt(m, d + n - w, s + n - w, w, i);
      if d <= i < d + n - w {
        MovedAt(m, d + n - w, s + n - w, w, i + (s - d));
      }
    }
  }

  /** One `movsl` or `movsb`: a whole word is read, then written. */
  method MoveWord<T>(mem: array<T>, d: nat, s: nat, w: nat)
    requires d + w <= mem.Length && s + w <= mem.Length
    modifies mem
    ensures mem[..] == Moved(old(mem[..]), d, s, w)
  {
    var word := mem[s..s + w];
    forall k | 0 <= k < w {
      mem[d + k] := word[k];
    }
    ghost var now, next := mem[..], Moved(old(mem[..]), d, s, w);
    forall i | 0 <= i < |now|
      ensures now[i] == next[i]
    {
      MovedAt(old(mem[..]), d, s, w, i);
      if d <= i < d + w {
        assert now[i] == word[i - d];
      }
    }
  }

  lemma OneWordLess(c: nat, w: nat)
    requires 0 < c
    ensures w <= c * w && (c - 1) * w == c * w - w
  {
  }

  lemma WholeWords(n: nat, w: nat)
    requires 0 < w && n % w == 0
    ensures (n / w) * w == n
  {
  }

  /** `cld; rep movs`: upward from the first word. */
  method RepForward<T>(mem: array<T>, dst: nat, src: nat, count: nat, w: nat)
    requires dst + count * w <= mem.Length && src + count * w <= mem.Length
    requires dst <= src || src + count * w <= dst
    modifies mem
    ensures mem[..] == Moved(old(mem[..]), dst, src, count * w)
  {
    hide Moved;
    var c, d, s := count, dst, src;
    ghost var n := count * w;
    ghost var left := n;
    while c > 0
      invariant 0 <= c && left == c * w && left <= n && d == dst + (n - left) && s == src + (n - left)
      invariant Moved(mem[..], d, s, left) == Moved(old(mem[..]), dst, src, n)
    {
      OneWordLess(c, w);
      FirstThenRest(mem[..], d, s, w, left);
      MoveWord(mem, d, s, w);
      d, s, c, left := d + w, s + w, c - 1, left - w;
    }
    MovedNone(mem[..], d, s);
  }

  /** `std; rep movs`: downward from the last word, which ends at `dst` and `src`. */
  method RepBackward<T>(mem: array<T>, dst: nat, src: nat, count: nat, w: nat)
    requires dst <= mem.Length && count * w <= src <= dst
    modifies mem
    ensures mem[..] == Moved(old(mem[..]), dst - count * w, src - count * w, count * w)
  {
    hide Moved;
    var c, d, s := count, dst, src;
    ghost var n := count * w;
    ghost var left := n;
    while c > 0
      invariant 0 <= c && left == c * w && left <= n && d == dst - n + left && s == src - n + left
      invariant Moved(mem[..], dst - n, src - n, left) == Moved(old(mem[..]), dst - n, src - n, n)
    {
      OneWordLess(c, w);
      LastThenRest(mem[..], dst - n, src - n, w, left);
      MoveWord(mem, d - w, s - w, w);
      d, s, c, left := d - w, s - w, c - 1, left - w;
    }
    MovedNone(mem[..], dst - n, src - n);
  }

  /** The assembly version, with its four ways to copy; `w` cells make a word. */
  method Memmove<T>(mem: array<T>, dst: nat, src: nat, n: nat, w: nat)
    requires dst + n <= mem.Length && src + n <= mem.Length && 0 < w
    modifies mem
    ensures mem[..] == Moved(old(mem[..]), dst, src, n)
  {
    hide Moved;
    var s, d := src, dst;
    if s < d && s + n > d {
      s, d := s + n, d + n;
      if s % w == 0 && d % w == 0 && n % w == 0 {
        WholeWords(n, w);
        RepBackward(mem, d, s, n / w, w);
      } else {
        RepBackward(mem, d, s, n, 1);
      }
    } else {
      if s % w == 0 && d % w == 0 && n % w == 0 {
        WholeWords(n, w);
        RepForward(mem, d, s, n / w, w);
      } else {
        RepForward(mem, d, s, n, 1);
      }
    }
  }

  lemma MovedOne<T>(m: seq<T>, d: nat, s: nat)
    requires d < |m| && s < |m|
    ensures Moved(m, d, s, 1) == m[d := m[s]]
  {
  }

  /** The C version, one cell at a time. */
  method MemmoveC<T>(mem: array<T>, dst: nat, src: nat, n: nat)
    requires dst + n <= mem.Length && src + n <= mem.Length
    modifies mem
    ensures mem[..] == Moved(old(mem[..]), dst, src, n)
  {
    hide Moved;
    var s, d, k := src, dst, n;
    if s < d && s + n > d {
      s, d := s + n, d + n;
      while k > 0
        invariant 0 <= k <= n && d == dst + k && s == src + k
        invariant Moved(mem[..], dst, src, k) == Moved(old(mem[..]), dst, src, n)
      {
        LastThenRest(mem[..], dst, src, 1, k);
        k, d, s := k - 1, d - 1, s - 1;
        MovedOne(mem[..], d, s);
        mem[d] := mem[s];
      }
    } else {
      while k > 0
        invariant 0 <= k <= n && d == dst + (n - k) && s == src + (n - k)
        invariant Moved(mem[..], d, s, k) == Moved(old(mem[..]), dst, src, n)
      {
        FirstThenRest(mem[..], d, s, 1, k);
        MovedOne(mem[..], d, s);
        mem[d] := mem[s];
        k, d, s := k - 1, d + 1, s + 1;
      }
    }
    MovedNone(mem[..], d, s);
  }
}
