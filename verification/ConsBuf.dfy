/** The ring buffer between the input devices and whoever reads the console. */
module ConsBuf {

  const CONSBUFSIZE: nat := 512

  type byte = x: int | 0 <= x < 256

  /** What is stored of the characters a device hands over: all but the zeros. */
  function NonZero(cs: seq<byte>): seq<byte> {
    if cs == [] then [] else Unless0(cs[0]) + NonZero(cs[1..])
  }

  function Unless0(c: byte): seq<byte> { if c == 0 then [] else [c] }

  lemma {:induction false} NonZeroConcat(a: seq<byte>, b: seq<byte>)
    ensures NonZero(a + b) == NonZero(a) + NonZero(b)
    decreases |a|
  {
    hide Unless0;
    if a == [] {
      assert a + b == b;
    } else {
      NonZeroConcat(a[1..], b);
      assert (a + b)[1..] == a[1..] + b;
    }
  }

  lemma NonZeroZero()
    ensures NonZero([0]) == []
  {
    assert [0][1..] == [];
  }

  lemma {:induction false} NonZeroAll(a: seq<byte>)
    requires 0 !in a
    ensures NonZero(a) == a
  {
    if a != [] {
      NonZeroAll(a[1..]);
    }
  }

  /** A zero leaves no trace, and everything else is kept in order. */
  lemma NonZeroIs(a: seq<byte>, b: seq<byte>)
    ensures 0 !in a ==> NonZero(a) == a
    ensures NonZero(a + [0] + b) == NonZero(a) + NonZero(b) == NonZero(a + b)
  {
    hide NonZero;
    NonZeroConcat(a + [0], b);
    NonZeroConcat(a, [0]);
    NonZeroConcat(a, b);
    NonZeroZero();
    assert NonZero(a) + [] == NonZero(a);
    if 0 !in a {
      NonZeroAll(a);
    }
  }

  /** How many characters can be read after `taken` of the characters `stored` so far have been. */
  function Pending(stored: seq<byte>, taken: nat): (n: nat)
    requires taken <= |stored|
    ensures n < CONSBUFSIZE && n <= |stored| - taken
  {
    (|stored| - taken) % CONSBUFSIZE
  }

  /** The queue a reader sees: the last characters stored. */
  function Queue(stored: seq<byte>, taken: nat): seq<byte>
    requires taken <= |stored|
  {
    stored[|stored| - Pending(stored, taken)..]
  }

  class ConsoleBuffer {
    const buf: array<byte>
    var rpos: nat
    var wpos: nat
    /** Every character ever stored, and how many were taken. */
    ghost var stored: seq<byte>
    ghost var taken: nat

    ghost predicate Valid()
      reads this, buf
    {
      && buf.Length == CONSBUFSIZE
      && taken <= |stored| && rpos == taken % CONSBUFSIZE && wpos == |stored| % CONSBUFSIZE
      && forall k | |stored| - CONSBUFSIZE <= k < |stored| && 0 <= k :: buf[k % CONSBUFSIZE] == stored[k]
    }

    constructor ()
      ensures Valid() && fresh(buf) && stored == [] && taken == 0
    {
      buf := new byte[CONSBUFSIZE](_ => 0);
      rpos, wpos, stored, taken := 0, 0, [], 0;
    }

    /** Drains a device; `input` is what it returns before -1. */
    method ConsIntr(input: seq<byte>)
      requires Valid()
      modifies this`wpos, this`stored, buf
      ensures Valid() && stored == old(stored) + NonZero(input)
    {
      var j := 0;
      while j < |input|
        invariant 0 <= j <= |input| && Valid() && taken == old(taken)
        invariant stored + NonZero(input[j..]) == old(stored) + NonZero(input)
      {
        var c := input[j];
        j := j + 1;
        assert input[j - 1..][1..] == input[j..];
        if c == 0 {
          continue;
        }
        Store(c);
      }
    }

    method Store(c: byte)
      requires Valid()
      modifies this`wpos, this`stored, buf
      ensures Valid() && stored == old(stored) + [c]
    {
      NextSlot(|stored|);
      buf[wpos] := c;
      wpos := wpos + 1;
      if wpos == CONSBUFSIZE {
        wpos := 0;
      }
      stored := stored + [c];
      forall k | |stored| - CONSBUFSIZE <= k < |stored| && 0 <= k
        ensures buf[k % CONSBUFSIZE] == stored[k]
      {
        if k < |stored| - 1 {
          OtherSlot(|stored| - 1, k);
        }
      }
    }

    method Take() returns (c: byte)
      requires Valid() && rpos != wpos
      modifies this`rpos, this`taken
      ensures Valid() && 0 < Pending(stored, old(taken))
      ensures c == Queue(stored, old(taken))[0] && taken == old(taken) + 1
    {
      hide Pending, Queue;
      QueueHead(stored, taken);
      NextSlot(taken);
      c := buf[rpos];
      rpos := rpos + 1;
      if rpos == CONSBUFSIZE {
        rpos := 0;
      }
      taken := taken + 1;
    }

    /** Polls both devices, then takes one character; 0 when there is none. */
    method ConsGetc(serial: seq<byte>, kbd: seq<byte>) returns (c: byte)
      requires Valid()
      modifies this, buf
      ensures Valid() && stored == old(stored) + NonZero(serial) + NonZero(kbd)
      ensures if Pending(stored, old(taken)) == 0 then c == 0 && taken == old(taken)
              else c == Queue(stored, old(taken))[0] && taken == old(taken) + 1
    {
      ConsIntr(serial);
      ConsIntr(kbd);
      if rpos != wpos {
        c := Take();
        return;
      }
      Slots(|stored|, taken);
      return 0;
    }
  }

  lemma OtherSlot(n: nat, k: nat)
    requires n - CONSBUFSIZE < k < n
    ensures k % CONSBUFSIZE != n % CONSBUFSIZE
  {
  }

  lemma NextSlot(n: nat)
    ensures (n + 1) % CONSBUFSIZE == if n % CONSBUFSIZE == CONSBUFSIZE - 1 then 0 else n % CONSBUFSIZE + 1
  {
  }

  /** The two positions meet when the queue is empty. */
  lemma Slots(w: nat, r: nat)
    requires r <= w
    ensures (w - (w - r) % CONSBUFSIZE) % CONSBUFSIZE == r % CONSBUFSIZE
    ensures (w - r) % CONSBUFSIZE == 0 <==> w % CONSBUFSIZE == r % CONSBUFSIZE
  {
  }

  /** The next slot to read holds the first character of the queue. */
  lemma QueueHead(stored: seq<byte>, taken: nat)
    requires taken <= |stored| && taken % CONSBUFSIZE != |stored| % CONSBUFSIZE
    ensures var k := |stored| - Pending(stored, taken);
            && 0 < Pending(stored, taken) && taken < |stored|
            && |stored| - CONSBUFSIZE <= k < |stored| && k % CONSBUFSIZE == taken % CONSBUFSIZE
            && Queue(stored, taken) != [] && Queue(stored, taken)[0] == stored[k]
  {
    Slots(|stored|, taken);
  }

  /** The queue is all that was stored and not taken exactly while fewer than 512 characters wait. */
  lemma QueueIsRest(stored: seq<byte>, taken: nat)
    requires taken <= |stored|
    ensures Queue(stored, taken) == stored[taken..] <==> |stored| - taken < CONSBUFSIZE
  {
    assert |Queue(stored, taken)| == Pending(stored, taken);
  }

  /** A run of the buffer: characters stored, and attempts to take one. */
  datatype Op = Put(c: byte) | Get

  /** Never more than 511 characters wait during the run. */
  ghost predicate NeverFull(stored: seq<byte>, taken: nat, ops: seq<Op>)
    requires taken <= |stored|
    decreases |ops|
  {
    && |stored| - taken < CONSBUFSIZE
    && (ops != [] ==>
          match ops[0]
          case Put(c) => NeverFull(stored + [c], taken, ops[1..])
          case Get => NeverFull(stored, if Pending(stored, taken) == 0 then taken else taken + 1, ops[1..]))
  }

  /** What the run stores, and what it gives out. */
  function Run(stored: seq<byte>, taken: nat, ops: seq<Op>): (seq<byte>, seq<byte>)
    requires taken <= |stored|
    decreases |ops|
  {
    if ops == [] then (stored, [])
    else
      match ops[0]
      case Put(c) => Run(stored + [c], taken, ops[1..])
      case Get =>
        if Pending(stored, taken) == 0 then Run(stored, taken, ops[1..])
        else
          var (s, out) := Run(stored, taken + 1, ops[1..]);
          (s, [Queue(stored, taken)[0]] + out)
  }

  /** A buffer that is never full is a queue: characters come out once each, in order, none lost. */
  lemma {:induction false} FirstInFirstOut(stored: seq<byte>, taken: nat, ops: seq<Op>)
    requires taken <= |stored| && NeverFull(stored, taken, ops)
    ensures var (s, out) := Run(stored, taken, ops);
            taken + |out| <= |s| && stored <= s && out == s[taken..taken + |out|]
    decreases |ops|
  {
    if ops != [] {
      match ops[0]
      case Put(c) => FirstInFirstOut(stored + [c], taken, ops[1..]);
      case Get =>
        FirstInFirstOut(stored, if Pending(stored, taken) == 0 then taken else taken + 1, ops[1..]);
    }
  }
}
