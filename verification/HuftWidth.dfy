/** How wide the tables of `huft_build` are, and so how many bits a look-up asks for, in terms
  of the code lengths alone. */
module HuftWidth {
  import opened Bits
  import opened Canonical
  import opened HuftTable

  /** Wider tables are tried while they would not be filled: with `j` bits there are `f` more
      patterns than codes of up to `k` bits; `z` is the limit. */
  function Widen(c: seq<nat>, k: nat, j: nat, f: int, z: nat): (r: nat)
    requires k + (if j < z then z - j else 0) <= |c|
    ensures r > j
    decreases z - j
  {
    if j + 1 >= z then j + 1
    else if 2 * f <= c[k + 1] then j + 1
    else Widen(c, k + 1, j + 1, 2 * f - c[k + 1], z)
  }

  lemma WidenStep(c: seq<nat>, k: nat, j: nat, f: int, z: nat)
    requires k + (if j < z then z - j else 0) <= |c| && j + 1 < z
    ensures Widen(c, k, j, f, z) == if 2 * f <= c[k + 1] then j + 1 else Widen(c, k + 1, j + 1, 2 * f - c[k + 1], z)
  {
  }

  lemma WidenEnd(c: seq<nat>, k: nat, j: nat, f: int, z: nat)
    requires k <= |c| && j + 1 >= z && k + (if j < z then z - j else 0) <= |c|
    ensures Widen(c, k, j, f, z) == j + 1
  {
  }

  function Least(a: nat, b: nat): nat {
    if a < b then a else b
  }

  /** The width of a table that is entered after `w` bits and made for codes of `k` bits of
      which `a + 1` are left.  `g` is the longest length, `el` that of end of block, `m` the
      limit that was asked for. */
  function TableWidth(c: seq<nat>, g: nat, el: nat, m: nat, w: nat, k: nat, a: nat): (j: nat)
    requires w < k <= g < |c|
    ensures j >= 1
  {
    var n := k - w;
    var j := if Pow2(n) > a + 1 then Widen(c, k, n, Pow2(n) - (a + 1), Least(g - w, m)) else n;
    if w + j > el && w < el then el - w else j
  }

  /** The length of the first code, in code order, that begins with the `w` bits `q`; `k` or
      longer. */
  function OpenFrom(c: seq<nat>, g: nat, w: nat, q: nat, k: nat): (r: nat)
    requires w < k <= g < |c|
    ensures k <= r <= g
    decreases g - k
  {
    if k == g || q * Pow2(k - w) < First(c, k) + c[k] then k else OpenFrom(c, g, w, q, k + 1)
  }

  /** The width of the table for the codes that begin with the `w` bits `q`: it is made when the
      first of them is entered. */
  function WidthAt(c: seq<nat>, g: nat, el: nat, m: nat, w: nat, q: nat): (j: nat)
    requires w < g < |c|
    ensures j >= 1
  {
    var k := OpenFrom(c, g, w, q, w + 1);
    var left := First(c, k) + c[k] - q * Pow2(k - w);
    TableWidth(c, g, el, m, w, k, if left > 0 then left - 1 else 0)
  }

  /** The bits that a look-up asks for on its way to the code word `v` of `k` bits, `w` of which
      are decoded: table after table, up to the one that the code word ends in. */
  function AskedFrom(c: seq<nat>, g: nat, el: nat, m: nat, v: nat, k: nat, w: nat): nat
    requires w < k <= g < |c|
    decreases g - w
  {
    var e := w + WidthAt(c, g, el, m, w, Shr(v, k - w));
    if k <= e then e else AskedFrom(c, g, el, m, v, k, e)
  }

  // ----- the first code of a table is the one it is made for

  lemma {:induction false} FirstBelow(c: seq<nat>, k: nat, n: nat)
    requires 1 <= k && 0 < n && k + n < |c|
    ensures (First(c, k) + c[k]) * Pow2(n) <= First(c, k + n)
    decreases n
  {
    if n > 1 {
      FirstBelow(c, k, n - 1);
      MulAssoc(First(c, k) + c[k], Pow2(n - 1), 2);
    }
    assert First(c, k + n) == 2 * (First(c, k + n - 1) + c[k + n - 1]);
    assert Pow2(n) == 2 * Pow2(n - 1) && Pow2(0) == 1;
  }

  lemma NotOpen(c: seq<nat>, w: nat, q: nat, k: nat, n: nat, done: nat)
    requires w < k && 0 < n && k + n < |c| && First(c, k + n) + done == q * Pow2(k + n - w)
    ensures q * Pow2(k - w) >= First(c, k) + c[k]
  {
    hide First, Pow2;
    FirstBelow(c, k, n);
    Pow2Add(k - w, n);
    MulAssoc(q, Pow2(k - w), Pow2(n));
    if q * Pow2(k - w) < First(c, k) + c[k] {
      MulMono(q * Pow2(k - w) + 1, First(c, k) + c[k], Pow2(n));
      Distribute(q * Pow2(k - w), 1, Pow2(n));
    }
  }

  lemma {:induction false} OpensFrom(c: seq<nat>, g: nat, w: nat, q: nat, k: nat, done: nat, j: nat)
    requires w < j <= k <= g < |c| && done < c[k] && First(c, k) + done == q * Pow2(k - w)
    ensures OpenFrom(c, g, w, q, j) == k
    decreases k - j
  {
    hide First, Pow2;
    if j < k {
      NotOpen(c, w, q, j, k - j, done);
      OpensFrom(c, g, w, q, k, done, j + 1);
    }
  }

  /** A table that is made for the code number `done` of `k` bits has the width of its prefix. */
  lemma WidthOpens(c: seq<nat>, g: nat, el: nat, m: nat, w: nat, q: nat, k: nat, done: nat)
    requires w < k <= g < |c| && done < c[k] && First(c, k) + done == q * Pow2(k - w)
    ensures WidthAt(c, g, el, m, w, q) == TableWidth(c, g, el, m, w, k, c[k] - done - 1)
  {
    hide First, Pow2, TableWidth;
    OpensFrom(c, g, w, q, k, done, w + 1);
  }

  // ----- for a list of code lengths

  /** How many codes of each length there are, with those that fill the code up. */
  function Padded(b: seq<nat>): (c: seq<nat>)
    ensures |c| == 17
  {
    seq(17, k requires 0 <= k < 17 =>
      if k == MaxLen(b) && FirstCode(b, k) <= Pow2(k) then Pow2(k) - FirstCode(b, k) else Count(b, k))
  }

  /** The shortest length from `k` on that some code has. */
  function ShortestFrom(b: seq<nat>, k: nat): nat
    decreases 16 - k
  {
    if k >= 16 || Count(b, k) > 0 then k else ShortestFrom(b, k + 1)
  }

  /** The limit on table width, bounded by the shortest and the longest length. */
  function Limit(b: seq<nat>, m: nat): nat {
    var n := if m < ShortestFrom(b, 1) then ShortestFrom(b, 1) else m;
    if n > MaxLen(b) then MaxLen(b) else n
  }

  /** The length of the end-of-block code, if there can be one. */
  function EndLen(b: seq<nat>): nat {
    if |b| > 256 then b[256] else 16
  }

  /** How many bits a look-up asks for that finds symbol `sym`, in the tables that `huft_build`
      makes for the lengths `b` and the limit `m`. */
  function Asked(b: seq<nat>, m: nat, sym: nat): (r: nat)
    requires sym < |b|
    ensures r <= MaxLen(b)
  {
    if 0 < b[sym] <= MaxLen(b) <= 16
    then Least(MaxLen(b), AskedFrom(Padded(b), MaxLen(b), EndLen(b), Limit(b, m), CodeOf(b, sym), b[sym], 0))
    else 0
  }

  lemma {:induction false} ShortestIs(b: seq<nat>, k: nat, j: nat)
    requires k <= j <= 16 && Count(b, j) > 0 && forall i: nat :: k <= i < j ==> Count(b, i) == 0
    ensures ShortestFrom(b, k) == j
    decreases j - k
  {
    if k < j {
      ShortestIs(b, k + 1, j);
    }
  }

  /** A limit may be exceeded: with one code of one bit and two of two, and a limit of one bit,
      the first table has two. */
  lemma LimitExceeded()
    ensures var c := [0, 1, 2] + seq(14, _ => 0);
            TableWidth(c, 2, 16, 1, 0, 1, 0) == 2
  {
  }
}
