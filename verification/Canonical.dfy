/** Canonical prefix codes, as section 3.2.2 of RFC 1951 defines them: a code is nothing
  but the list of its code lengths.  This module is the specification that the table
  builder and the decoders are measured against; it never mentions a table. */
module Canonical {
  import opened Wrappers
  import opened Bits
  import opened BitStream

  /** `bl_count[k]` of section 3.2.2: how many symbols have a code of `k` bits. */
  function Count(lens: seq<nat>, k: nat): (r: nat)
    ensures r <= |lens|
  {
    if lens == [] then 0
    else Count(lens[..|lens| - 1], k) + (if lens[|lens| - 1] == k then 1 else 0)
  }

  /** `next_code[k]` of section 3.2.2 before any code is handed out: the first code of `k` bits. */
  function FirstCode(lens: seq<nat>, k: nat): nat {
    if k <= 1 then 0 else 2 * (FirstCode(lens, k - 1) + Count(lens, k - 1))
  }

  /** The code of symbol `s`: codes of one length are consecutive, in symbol order. */
  function CodeOf(lens: seq<nat>, s: nat): nat
    requires s < |lens|
  {
    FirstCode(lens, lens[s]) + Count(lens[..s], lens[s])
  }

  /** The stream carries the code of symbol `s` at position `p`, most significant bit first. */
  predicate HasCode(lens: seq<nat>, s: nat, input: seq<Byte>, p: nat) {
    s < |lens| && lens[s] > 0 && Msb(input, p, lens[s]) == CodeOf(lens, s)
  }

  /** The same for a number whose low bits are the stream, first bit lowest. */
  predicate Starts(lens: seq<nat>, s: nat, x: nat) {
    s < |lens| && lens[s] > 0 && Rev(lens[s], x) == CodeOf(lens, s)
  }

  /** Canonical decoding: the symbol whose code is at `p`, and the position after that code.
      None if no symbol's code is there, or if the stream ends inside it. */
  ghost function Symbol(lens: seq<nat>, input: seq<Byte>, p: nat): (r: Option<(nat, nat)>)
    ensures r.Some? ==> r.value.0 < |lens| && p < r.value.1 <= BitLen(input)
  {
    if exists s: nat :: HasCode(lens, s, input, p) && p + lens[s] <= BitLen(input)
    then var s: nat :| HasCode(lens, s, input, p) && p + lens[s] <= BitLen(input);
      Some((s, p + lens[s]))
    else None
  }

  // ----- no code is a prefix of another

  lemma {:induction false} CountPrefix(lens: seq<nat>, s: nat, k: nat)
    requires s <= |lens|
    ensures Count(lens[..s], k) <= Count(lens, k)
    ensures s < |lens| && lens[s] == k ==> Count(lens[..s], k) < Count(lens, k)
    decreases |lens|
  {
    if s < |lens| {
      var front := lens[..|lens| - 1];
      CountPrefix(front, s, k);
      assert front[..s] == lens[..s];
    } else {
      assert lens[..s] == lens;
    }
  }

  lemma {:induction false} FirstCodeGrows(lens: seq<nat>, k: nat, m: nat)
    requires 0 < k && 0 < m
    ensures (FirstCode(lens, k) + Count(lens, k)) * Pow2(m) <= FirstCode(lens, k + m)
    decreases m
  {
    var a := FirstCode(lens, k) + Count(lens, k);
    assert Pow2(m) == 2 * Pow2(m - 1);
    assert FirstCode(lens, k + m) == 2 * (FirstCode(lens, k + m - 1) + Count(lens, k + m - 1));
    MulDouble(a, Pow2(m - 1));
    if m > 1 {
      FirstCodeGrows(lens, k, m - 1);
    } else {
      assert Pow2(0) == 1;
    }
  }

  lemma MulDouble(a: int, b: int)
    ensures a * (2 * b) == 2 * (a * b)
  {
  }

  /** Codes of different lengths never agree on the bits of the shorter one. */
  lemma LengthUnique(lens: seq<nat>, x: nat, k: nat, m: nat)
    requires 0 < k
    requires FirstCode(lens, k) <= Rev(k, x) < FirstCode(lens, k) + Count(lens, k)
    requires FirstCode(lens, k + m) <= Rev(k + m, x) < FirstCode(lens, k + m) + Count(lens, k + m)
    ensures m == 0
  {
    if m > 0 {
      RevSplit(k, m, x);
      FirstCodeGrows(lens, k, m);
      MulMono(Rev(k, x) + 1, FirstCode(lens, k) + Count(lens, k), Pow2(m));
      Distribute(Rev(k, x), 1, Pow2(m));
    }
  }

  lemma {:induction false} RankUnique(lens: seq<nat>, s: nat, t: nat)
    requires s < t < |lens| && lens[s] == lens[t]
    ensures Count(lens[..s], lens[s]) < Count(lens[..t], lens[s])
  {
    CountPrefix(lens[..t], s, lens[s]);
    assert lens[..t][..s] == lens[..s];
  }

  /** At most one symbol's code is at any position: the code is prefix free. */
  lemma PrefixFree(lens: seq<nat>, s: nat, t: nat, x: nat)
    requires Starts(lens, s, x) && Starts(lens, t, x)
    ensures s == t
    decreases lens[t] < lens[s]
  {
    if lens[t] < lens[s] {
      PrefixFree(lens, t, s, x);
    } else {
      var k, m := lens[s], lens[t] - lens[s];
      CountPrefix(lens, s, k);
      CountPrefix(lens, t, k + m);
      LengthUnique(lens, x, k, m);
      if s < t {
        RankUnique(lens, s, t);
      } else if t < s {
        RankUnique(lens, t, s);
      }
    }
  }

  /** The code at a position only depends on as many stream bits as it has. */
  lemma HasCodeStarts(lens: seq<nat>, s: nat, input: seq<Byte>, p: nat, n: nat)
    requires s < |lens| && lens[s] <= n
    ensures HasCode(lens, s, input, p) <==> Starts(lens, s, Peek(input, p, n))
  {
    var k := lens[s];
    MsbIsRev(input, p, k);
    PeekLow(input, p, n, k);
    RevLow(k, k, Peek(input, p, n));
  }

  /** `Symbol` is characterised by the code it finds. */
  lemma SymbolIs(lens: seq<nat>, s: nat, input: seq<Byte>, p: nat)
    requires HasCode(lens, s, input, p) && p + lens[s] <= BitLen(input)
    ensures Symbol(lens, input, p) == Some((s, p + lens[s]))
  {
    var t := Symbol(lens, input, p).value.0;
    assert HasCode(lens, t, input, p);
    var n := if lens[s] < lens[t] then lens[t] else lens[s];
    HasCodeStarts(lens, s, input, p, n);
    HasCodeStarts(lens, t, input, p, n);
    PrefixFree(lens, s, t, Peek(input, p, n));
  }

  // ----- the Kraft sum

  /** The Kraft sum of the code, in units of `2^-16`. */
  function Kraft(lens: seq<nat>): nat {
    if lens == [] then 0
    else
      var k := lens[|lens| - 1];
      Kraft(lens[..|lens| - 1]) + (if 0 < k <= 16 then Pow2(16 - k) else 0)
  }

  function MaxLen(lens: seq<nat>): (r: nat)
    ensures forall i :: 0 <= i < |lens| ==> lens[i] <= r
    ensures r > 0 ==> r in lens
  {
    if lens == [] then 0
    else
      var m := MaxLen(lens[..|lens| - 1]);
      if lens[|lens| - 1] > m then lens[|lens| - 1] else m
  }

  // ----- the two rules of section 3.2.2

  /** All codes of a given length have consecutive values, in the order of the symbols. */
  lemma Consecutive(lens: seq<nat>, s: nat, t: nat)
    requires s < t < |lens| && lens[s] == lens[t] && forall i :: s < i < t ==> lens[i] != lens[s]
    ensures CodeOf(lens, t) == CodeOf(lens, s) + 1
  {
    NoneBetween(lens, s, t);
  }

  lemma {:induction false} NoneBetween(lens: seq<nat>, s: nat, t: nat)
    requires s < t <= |lens| && forall i :: s < i < t ==> lens[i] != lens[s]
    ensures Count(lens[..t], lens[s]) == Count(lens[..s], lens[s]) + 1
    decreases t
  {
    assert lens[..t][..t - 1] == lens[..t - 1];
    if t > s + 1 {
      NoneBetween(lens, s, t - 1);
    }
  }

  /** Shorter codes come before longer ones. */
  lemma ShorterFirst(lens: seq<nat>, s: nat, t: nat)
    requires s < |lens| && t < |lens| && 0 < lens[s] < lens[t]
    ensures (CodeOf(lens, s) + 1) * Pow2(lens[t] - lens[s]) <= CodeOf(lens, t)
  {
    hide FirstCode, Pow2;
    var k, m := lens[s], lens[t] - lens[s];
    CountPrefix(lens, s, k);
    FirstCodeGrows(lens, k, m);
    MulMono(CodeOf(lens, s) + 1, FirstCode(lens, k) + Count(lens, k), Pow2(m));
  }

  /** The example of section 3.2.2: with the lengths 3, 3, 3, 3, 3, 2, 4, 4 the codes are 010, 011, 100,
      101, 110, 00, 1110 and 1111. */
  lemma Example322()
    ensures var l := [3, 3, 3, 3, 3, 2, 4, 4];
            && CodeOf(l, 0) == 2 && CodeOf(l, 1) == 3 && CodeOf(l, 2) == 4 && CodeOf(l, 3) == 5 && CodeOf(l, 4) == 6
            && CodeOf(l, 5) == 0 && CodeOf(l, 6) == 14 && CodeOf(l, 7) == 15
  {
    var l := [3, 3, 3, 3, 3, 2, 4, 4];
    ExampleCount(3);
    ExampleCount(2);
    ExampleCount(4);
    ExampleCount(1);
    Consecutive(l, 0, 1);
    Consecutive(l, 1, 2);
    Consecutive(l, 2, 3);
    Consecutive(l, 3, 4);
    Consecutive(l, 6, 7);
    hide Count;
    assert FirstCode(l, 1) == 0;
    assert FirstCode(l, 2) == 0;
    assert FirstCode(l, 3) == 2;
    assert FirstCode(l, 4) == 14;
  }

  lemma ExampleCount(k: nat)
    ensures var l := [3, 3, 3, 3, 3, 2, 4, 4];
            && Count(l, k) == (if k == 3 then 5 else if k == 2 then 1 else if k == 4 then 2 else 0)
            && Count(l[..0], k) == 0 && Count(l[..5], k) == (if k == 3 then 5 else 0)
            && Count(l[..6], k) == if k == 3 then 5 else if k == 2 then 1 else 0
  {
    var l := [3, 3, 3, 3, 3, 2, 4, 4];
    forall i | 0 < i <= 8 ensures l[..i][..i - 1] == l[..i - 1] {
    }
    assert Count(l[..1], k) == if k == 3 then 1 else 0;
    assert Count(l[..2], k) == if k == 3 then 2 else 0;
    assert Count(l[..3], k) == if k == 3 then 3 else 0;
    assert Count(l[..4], k) == if k == 3 then 4 else 0;
    assert Count(l[..5], k) == if k == 3 then 5 else 0;
    assert Count(l[..6], k) == if k == 3 then 5 else if k == 2 then 1 else 0;
    assert Count(l[..7], k) == if k == 3 then 5 else if k == 2 || k == 4 then 1 else 0;
    assert l[..8] == l;
  }
}
