/** What the line editor makes of a run of keys. */
module EditedLine {
  import opened Terminal

  const BUFLEN: nat := 1024

  predicate IsErase(c: Ch) { c == 8 || c == 0x7f }

  predicate IsEnd(c: Ch) { c == 10 || c == 13 }

  /** What one key makes of the line. */
  function Keyed(line: seq<Ch>, c: Ch): seq<Ch> {
    if IsErase(c) && 0 < |line| then line[..|line| - 1]
    else if 0x20 <= c && |line| < BUFLEN - 1 then line + [c]
    else line
  }

  /** The line after a run of keys. */
  function Edited(keys: seq<Ch>): (line: seq<Ch>)
    ensures |line| < BUFLEN
  {
    if keys == [] then [] else Keyed(Edited(keys[..|keys| - 1]), keys[|keys| - 1])
  }

  lemma EndKeeps(line: seq<Ch>, c: Ch)
    requires IsEnd(c)
    ensures Keyed(line, c) == line
  {
  }

  lemma EditedMore(keys: seq<Ch>, c: Ch)
    ensures Edited(keys + [c]) == Keyed(Edited(keys), c)
  {
    assert (keys + [c])[..|keys|] == keys;
  }

  /** At most as many keys as the buffer has room for, none of them a control code or an erase key. */
  ghost predicate Plain(keys: seq<Ch>) {
    |keys| <= 1023 && forall i | 0 <= i < |keys| :: 0x20 <= keys[i] && keys[i] != 0x7f
  }

  lemma PlainKeyed(line: seq<Ch>, c: Ch)
    requires 0x20 <= c && c != 0x7f && |line| < 1023
    ensures Keyed(line, c) == line + [c]
  {
  }

  /** Plain keys make up the line as they are. */
  lemma {:induction false} PlainLine(keys: seq<Ch>)
    requires Plain(keys)
    ensures Edited(keys) == keys
    decreases |keys|
  {
    if keys != [] {
      hide Edited, Keyed;
      var before, c := keys[..|keys| - 1], keys[|keys| - 1];
      assert keys == before + [c];
      PlainLine(before);
      EditedMore(before, c);
      PlainKeyed(before, c);
    }
  }

  /** Either erase key takes back the character before it. */
  lemma EraseUndoes(keys: seq<Ch>, c: Ch, e: Ch)
    requires 0x20 <= c && c != 0x7f && (e == 8 || e == 0x7f) && |Edited(keys)| < 1023
    ensures Edited(keys + [c]) == Edited(keys) + [c]
    ensures Edited(keys + [c] + [e]) == Edited(keys)
  {
    EditedMore(keys, c);
    EditedMore(keys + [c], e);
  }

  /**
   * Control codes other than backspace, a backspace on an empty line, and on a full line all but the erase keys,
   * change nothing.  DEL on an empty line does: it is then a character like any other.
   */
  lemma NoEffect(keys: seq<Ch>, c: Ch)
    ensures (c < 0x20 && c != 8) || (c == 8 && Edited(keys) == []) || (|Edited(keys)| == 1023 && c != 8 && c != 0x7f)
            ==> Edited(keys + [c]) == Edited(keys)
    ensures c == 0x7f && Edited(keys) == [] ==> Edited(keys + [c]) == [0x7f]
  {
    EditedMore(keys, c);
  }

  /** What a key makes of the length of the line. */
  function NextLevel(l: nat, c: Ch): nat {
    if (c == 8 || c == 0x7f) && 0 < l then l - 1
    else if 0x20 <= c && l < 1023 then l + 1
    else l
  }

  /** How long the line is after the first `n` keys. */
  function Level(keys: seq<Ch>, n: nat): nat
    requires n <= |keys|
  {
    if n == 0 then 0 else NextLevel(Level(keys, n - 1), keys[n - 1])
  }

  /**
   * Key `i` put a character into the line, and among the first `n` keys none has taken it away: the line never was so
   * short again.
   */
  predicate Stays(keys: seq<Ch>, i: nat, n: nat)
    requires i < n <= |keys|
  {
    Level(keys, i + 1) == Level(keys, i) + 1 && forall j | i < j <= n :: Level(keys, i) < Level(keys, j)
  }

  /** Those of the first `m` keys that are still in the line after the first `n`. */
  function Places(keys: seq<Ch>, n: nat, m: nat): (ps: seq<nat>)
    requires m <= n <= |keys|
    ensures forall p | 0 <= p < |ps| :: ps[p] < m
  {
    if m == 0 then [] else Places(keys, n, m - 1) + if Stays(keys, m - 1, n) then [m - 1] else []
  }

  lemma {:induction false} PlacesAre(keys: seq<Ch>, n: nat, m: nat)
    requires m <= n <= |keys|
    ensures var ps := Places(keys, n, m);
            && (forall i | 0 <= i < m :: Stays(keys, i, n) <==> i in ps)
            && forall p, q | 0 <= p < q < |ps| :: ps[p] < ps[q]
  {
    hide Stays;
    if 0 < m {
      PlacesAre(keys, n, m - 1);
    }
  }

  /** The keys that were typed and not taken away again, in order. */
  function Kept(keys: seq<Ch>): seq<Ch> {
    At(keys, Places(keys, |keys|, |keys|))
  }

  function At(keys: seq<Ch>, ps: seq<nat>): (line: seq<Ch>)
    requires forall p | 0 <= p < |ps| :: ps[p] < |keys|
    ensures |line| == |ps|
  {
    seq(|ps|, p requires 0 <= p < |ps| => keys[ps[p]])
  }

  lemma KeyedLevel(line: seq<Ch>, c: Ch)
    requires |line| <= 1023
    ensures var l := NextLevel(|line|, c);
            && l <= |line| + 1
            && Keyed(line, c) == if l < |line| then line[..l] else if l == |line| then line else line + [c]
  {
  }

  lemma StaysOn(keys: seq<Ch>, i: nat, n: nat)
    requires i < n < |keys|
    ensures Stays(keys, i, n + 1) <==> Stays(keys, i, n) && Level(keys, i) < Level(keys, n + 1)
  {
  }

  lemma StaysBelow(keys: seq<Ch>, i: nat, n: nat)
    requires i < n <= |keys| && Stays(keys, i, n)
    ensures Level(keys, i) < Level(keys, n)
  {
  }

  /** A key that shortens nothing takes nothing away. */
  lemma {:induction false} SamePlaces(keys: seq<Ch>, n: nat, m: nat)
    requires m <= n < |keys| && Level(keys, n) <= Level(keys, n + 1)
    ensures Places(keys, n + 1, m) == Places(keys, n, m)
  {
    hide Stays, Level;
    if 0 < m {
      SamePlaces(keys, n, m - 1);
      StaysOn(keys, m - 1, n);
      if Stays(keys, m - 1, n) {
        StaysBelow(keys, m - 1, n);
      }
    }
  }

  /** The key in place `p` is the one that lengthened a line of `p` characters. */
  ghost predicate InOrder(keys: seq<Ch>, ps: seq<nat>) {
    forall p | 0 <= p < |ps| :: ps[p] <= |keys| && Level(keys, ps[p]) == p
  }

  function Upto(ps: seq<nat>, l: nat): seq<nat> {
    if |ps| <= l then ps else ps[..l]
  }

  /** A key that shortens the line takes away all that is beyond its new end. */
  lemma {:induction false} FewerPlaces(keys: seq<Ch>, n: nat, m: nat)
    requires m <= n < |keys| && InOrder(keys, Places(keys, n, m))
    ensures Places(keys, n + 1, m) == Upto(Places(keys, n, m), Level(keys, n + 1))
  {
    hide Stays, Level;
    if 0 < m {
      var before := Places(keys, n, m - 1);
      assert InOrder(keys, before) by {
        assert forall p | 0 <= p < |before| :: before[p] == Places(keys, n, m)[p];
      }
      FewerPlaces(keys, n, m - 1);
      StaysOn(keys, m - 1, n);
      if Stays(keys, m - 1, n) {
        assert Places(keys, n, m) == before + [m - 1] && Places(keys, n, m)[|before|] == m - 1;
      }
    }
  }

  /** What the keys in the line are, and that they are in order. */
  ghost predicate Shown(keys: seq<Ch>, n: nat)
    requires n <= |keys|
  {
    var ps := Places(keys, n, n);
    |ps| == Level(keys, n) && InOrder(keys, ps) && Edited(keys[..n]) == At(keys, ps)
  }

  /** What the next key does to the line. */
  lemma NextLine(keys: seq<Ch>, n: nat)
    requires n < |keys| && |Edited(keys[..n])| == Level(keys, n)
    ensures var line, l := Edited(keys[..n]), Level(keys, n + 1);
            && l <= |line| + 1
            && Edited(keys[..n + 1]) ==
               if l < |line| then line[..l] else if l == |line| then line else line + [keys[n]]
  {
    hide Edited, Keyed, NextLevel;
    assert keys[..n + 1] == keys[..n] + [keys[n]];
    EditedMore(keys[..n], keys[n]);
    KeyedLevel(Edited(keys[..n]), keys[n]);
  }

  /** And which keys stay. */
  lemma NextPlaces(keys: seq<Ch>, n: nat)
    requires n < |keys| && |Places(keys, n, n)| == Level(keys, n) && InOrder(keys, Places(keys, n, n))
    ensures var ps, l := Places(keys, n, n), Level(keys, n + 1);
            && l <= |ps| + 1
            && Places(keys, n + 1, n + 1) ==
               if l < |ps| then ps[..l] else if l == |ps| then ps else ps + [n]
  {
    assert Level(keys, n + 1) <= Level(keys, n) + 1;
    hide Stays, Places, Level, InOrder;
    NewPlace(keys, n);
    if Level(keys, n + 1) < Level(keys, n) {
      FewerPlaces(keys, n, n);
    } else {
      SamePlaces(keys, n, n);
    }
  }

  lemma ShownMore(keys: seq<Ch>, n: nat)
    requires n < |keys| && Shown(keys, n)
    ensures Shown(keys, n + 1)
  {
    hide Places, Edited, Level;
    NextLine(keys, n);
    NextPlaces(keys, n);
    var ps, l := Places(keys, n, n), Level(keys, n + 1);
    if l <= |ps| {
      assert At(keys, ps[..l]) == At(keys, ps)[..l];
    } else {
      assert At(keys, ps + [n]) == At(keys, ps) + [keys[n]];
    }
  }

  lemma NewPlace(keys: seq<Ch>, n: nat)
    requires n < |keys|
    ensures Places(keys, n + 1, n + 1) ==
            Places(keys, n + 1, n) + if Level(keys, n + 1) == Level(keys, n) + 1 then [n] else []
  {
    hide Level;
  }

  lemma {:induction false} AlwaysShown(keys: seq<Ch>, n: nat)
    requires n <= |keys|
    ensures Shown(keys, n)
  {
    hide Shown;
    if n == 0 {
      NothingShown(keys);
    } else {
      AlwaysShown(keys, n - 1);
      ShownMore(keys, n - 1);
    }
  }

  lemma NothingShown(keys: seq<Ch>)
    ensures Shown(keys, 0)
  {
  }

  /**
   * After any keys the line holds, in order, exactly the keys that put in a character which no later key has taken
   * away: each erase takes the last one before it that is still there.
   */
  lemma EditedIsKept(keys: seq<Ch>)
    ensures Edited(keys) == Kept(keys) && |Edited(keys)| == Level(keys, |keys|)
  {
    hide Places, Level, Edited;
    AlwaysShown(keys, |keys|);
    assert keys[..|keys|] == keys;
  }

  lemma NothingEdited()
    ensures Edited([]) == []
  {
  }

  /** The line once a key has ended it. */
  lemma LineRead(keys: seq<Ch>, c: Ch)
    requires IsEnd(c)
    ensures Edited(keys + [c]) == Edited(keys) == Kept(keys + [c])
    ensures Plain(keys) ==> Edited(keys) == keys
  {
    hide Kept;
    EditedMore(keys, c);
    EndKeeps(Edited(keys), c);
    EditedIsKept(keys + [c]);
    if Plain(keys) {
      PlainLine(keys);
    }
  }
}
