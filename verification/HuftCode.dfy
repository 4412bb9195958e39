/** The first half of `huft_build`: from code lengths to a complete code. */
module HuftCode {
  import opened Bits
  import opened Canonical
  import opened HuftTable

  const BMAX: nat := 16    // maximum bit length of any code
  const N_MAX: nat := 288  // maximum number of codes in any set

  /** What `huft_build` demands of its length list. */
  ghost predicate Lengths(b: seq<nat>) {
    0 < |b| <= N_MAX && forall i :: 0 <= i < |b| ==> b[i] <= BMAX
  }

  lemma CountStep(b: seq<nat>, i: nat, k: nat)
    requires i < |b|
    ensures Count(b[..i + 1], k) == Count(b[..i], k) + (if b[i] == k then 1 else 0)
  {
    assert b[..i + 1][..i] == b[..i];
  }

  /** Generate counts for each bit length. */
  method CountLengths(b: seq<nat>) returns (c: array<nat>)
    requires Lengths(b)
    ensures fresh(c) && c.Length == BMAX + 1
    ensures forall k :: 0 <= k <= BMAX ==> c[k] == Count(b, k)
  {
    c := new nat[BMAX + 1](_ => 0);
    var i := 0;
    while i < |b|
      invariant 0 <= i <= |b|
      invariant forall k :: 0 <= k <= BMAX ==> c[k] == Count(b[..i], k)
    {
      forall k | 0 <= k <= BMAX
        ensures Count(b[..i + 1], k) == Count(b[..i], k) + (if b[i] == k then 1 else 0)
      {
        CountStep(b, i, k);
      }
      c[b[i]] := c[b[i]] + 1;
      i := i + 1;
    }
    assert b[..|b|] == b;
  }

  /** Find minimum and maximum length. */
  method MinMax(c: array<nat>) returns (j: nat, i: nat)
    requires c.Length == BMAX + 1 && exists k :: 1 <= k <= BMAX && c[k] > 0
    ensures 1 <= j <= i <= BMAX
    ensures c[j] > 0 && c[i] > 0
    ensures forall k :: 1 <= k < j || i < k <= BMAX ==> c[k] == 0
  {
    j := 1;
    while c[j] == 0
      invariant 1 <= j <= BMAX
      invariant forall k :: 1 <= k < j ==> c[k] == 0
      decreases BMAX - j
    {
      j := j + 1;
    }
    i := BMAX;
    while c[i] == 0
      invariant j <= i <= BMAX
      invariant forall k :: i < k <= BMAX ==> c[k] == 0
      decreases i
    {
      i := i - 1;
    }
  }

  lemma {:induction false} FirstZero(c: seq<nat>, k: nat)
    requires k <= |c| && forall l :: 1 <= l < k ==> c[l] == 0
    ensures First(c, k) == 0
    decreases k
  {
    if k > 1 {
      FirstZero(c, k - 1);
    }
  }

  /** The code is oversubscribed: some length runs past its last code word. */
  predicate Oversubscribed(c: seq<nat>, g: nat)
    requires 1 <= g < |c|
  {
    Pow2(g) < First(c, g) + c[g]
  }

  /** Adjust the last length count to fill out the code: how many dummy codes of the longest
      length complete it, or -1 if there are more codes than bits. */
  method FillOut(c: array<nat>, j: nat, i: nat) returns (y: int)
    requires c.Length == BMAX + 1 && 1 <= j <= i <= BMAX
    requires forall k :: 1 <= k < j ==> c[k] == 0
    ensures Oversubscribed(c[..], i) ==> y == -1
    ensures !Oversubscribed(c[..], i) ==> y == Pow2(i) - First(c[..], i) - c[i] && y >= 0
  {
    FirstZero(c[..], j);
    y := Pow2(j);
    var jj := j;
    while jj < i
      invariant j <= jj <= i
      invariant y == Pow2(jj) - First(c[..], jj)
    {
      y := y - c[jj];
      if y < 0 {
        OverUp(c[..], jj, i);
        return -1;
      }
      jj := jj + 1;
      y := 2 * y;
    }
    y := y - c[i];
    if y < 0 {
      return -1;
    }
  }

  lemma {:induction false} OffsetMono(c: seq<nat>, j: nat, k: nat)
    requires 1 <= j < k <= |c|
    ensures Offset(c, j) + c[j] <= Offset(c, k)
    decreases k
  {
    if j < k - 1 {
      OffsetMono(c, j, k - 1);
    }
  }

  /** `s` is the symbol with the `r`-th code of `k` bits. */
  predicate Ranked(b: seq<nat>, s: nat, k: nat, r: nat) {
    s < |b| && b[s] == k && Count(b[..s], k) == r
  }

  ghost predicate SortedAt(b: seq<nat>, c: seq<nat>, v: seq<nat>, k: nat, r: nat, i: nat)
    requires k <= |c|
  {
    var pos := Offset(c, k) + r;
    pos < |v| && Ranked(b, v[pos], k, r) && v[pos] < i
  }

  /** The first `i` symbols in order of code length, and in symbol order within one length. */
  ghost predicate Sorted(b: seq<nat>, c: seq<nat>, v: seq<nat>, g: nat, i: nat)
    requires g <= BMAX < |c| && i <= |b|
  {
    forall k: nat, r: nat :: 1 <= k <= g && r < Count(b[..i], k) ==> SortedAt(b, c, v, k, r, i)
  }

  /** `c` holds the true counts; that of the longest length may have dummy codes added. */
  ghost predicate Counted(b: seq<nat>, c: seq<nat>, g: nat) {
    && Lengths(b) && |c| == BMAX + 1 && 1 <= g <= BMAX
    && (forall k :: 1 <= k < g ==> c[k] == Count(b, k))
    && c[g] >= Count(b, g)
    && (forall i :: 0 <= i < |b| ==> b[i] <= g)
  }

  lemma {:induction false} OffsetSum(b: seq<nat>, c: seq<nat>, k: nat)
    requires 1 <= k < |c| && forall j :: 1 <= j < k ==> c[j] == Count(b, j)
    ensures Offset(c, k) == CountBelow(b, k)
    decreases k
  {
    if k > 1 {
      OffsetSum(b, c, k - 1);
      CountBelowStep(b, k - 1);
    } else {
      CountBelowOne(b);
    }
  }

  /** How many symbols have a code shorter than `k` bits. */
  function CountBelow(b: seq<nat>, k: nat): (r: nat)
    ensures r <= |b|
  {
    if b == [] then 0
    else CountBelow(b[..|b| - 1], k) + (if 0 < b[|b| - 1] < k then 1 else 0)
  }

  lemma {:induction false} CountBelowStep(b: seq<nat>, k: nat)
    requires 1 <= k
    ensures CountBelow(b, k + 1) == CountBelow(b, k) + Count(b, k)
    ensures CountBelow(b, k) + Count(b, k) <= |b|
  {
    if b != [] {
      CountBelowStep(b[..|b| - 1], k);
    }
  }

  lemma {:induction false} CountBelowOne(b: seq<nat>)
    ensures CountBelow(b, 1) == 0
  {
    if b != [] {
      CountBelowOne(b[..|b| - 1]);
    }
  }

  /** Generate starting offsets into the value table for each length. */
  method StartOffsets(c: array<nat>, g: nat) returns (x: array<nat>)
    requires c.Length == BMAX + 1 && 1 <= g <= BMAX
    ensures fresh(x) && x.Length == BMAX + 1
    ensures forall t :: 1 <= t <= g ==> x[t] == Offset(c[..], t)
  {
    x := new nat[BMAX + 1](_ => 0);
    ghost var cs := c[..];
    var j, k := 0, 1;
    while k < g
      invariant 1 <= k <= g
      invariant j == Offset(cs, k) && c[..] == cs
      invariant forall t :: 1 <= t <= k ==> x[t] == Offset(cs, t)
    {
      j := j + c[k];
      k := k + 1;
      x[k] := j;
    }
  }

  /** Make a table of values in order of bit lengths (a counting sort). */
  method SortValues(b: seq<nat>, c: array<nat>, g: nat) returns (v: seq<nat>)
    requires c.Length == BMAX + 1 && Counted(b, c[..], g)
    ensures |v| == Offset(c[..], g) + Count(b, g)
    ensures Sorted(b, c[..], v, g, |b|)
  {
    hide Count, Offset;
    ghost var cs := c[..];
    var x := StartOffsets(c, g);
    var va := new nat[N_MAX](_ => 0);
    var i: nat := 0;
    while i < |b|
      invariant 0 <= i <= |b|
      invariant c[..] == cs
      invariant forall t :: 1 <= t <= g ==> x[t] == Offset(cs, t) + Count(b[..i], t)
      invariant Sorted(b, cs, va[..], g, i)
    {
      ghost var before := va[..];
      forall t: nat
        ensures Count(b[..i + 1], t) == Count(b[..i], t) + (if b[i] == t then 1 else 0)
      {
        CountStep(b, i, t);
      }
      if b[i] != 0 {
        Room(b, cs, g, i);
        SortedStep(b, cs, before, g, i);
        va[x[b[i]]] := i;
        assert va[..] == before[x[b[i]] := i];
        x[b[i]] := x[b[i]] + 1;
      } else {
        SortedSkip(b, cs, before, g, i);
      }
      i := i + 1;
    }
    assert b[..|b|] == b;
    OffsetSum(b, cs, g);
    CountBelowStep(b, g);
    v := va[..x[g]];
    SortedCut(b, cs, va[..], g, x[g]);
  }

  /** The next free position for the length of symbol `i` is inside the value table. */
  lemma Room(b: seq<nat>, c: seq<nat>, g: nat, i: nat)
    requires Counted(b, c, g) && i < |b| && 1 <= b[i]
    ensures Offset(c, b[i]) + Count(b[..i], b[i]) < N_MAX
  {
    CountPrefix(b, i, b[i]);
    OffsetSum(b, c, b[i]);
    CountBelowStep(b, b[i]);
  }

  lemma SortedSkip(b: seq<nat>, c: seq<nat>, v: seq<nat>, g: nat, i: nat)
    requires Counted(b, c, g) && i < |b| && b[i] == 0
    requires Sorted(b, c, v, g, i)
    ensures Sorted(b, c, v, g, i + 1)
  {
    var n := i + 1;
    forall k: nat, r: nat | 1 <= k <= g && r < Count(b[..n], k)
      ensures SortedAt(b, c, v, k, r, n)
    {
      CountStep(b, i, k);
      assert SortedAt(b, c, v, k, r, i);
    }
  }

  lemma SortedCut(b: seq<nat>, c: seq<nat>, v: seq<nat>, g: nat, n: nat)
    requires Counted(b, c, g) && Sorted(b, c, v, g, |b|)
    requires n == Offset(c, g) + Count(b, g) <= |v|
    ensures Sorted(b, c, v[..n], g, |b|)
  {
    assert b[..|b|] == b;
    forall k: nat, r: nat | 1 <= k <= g && r < Count(b, k)
      ensures SortedAt(b, c, v[..n], k, r, |b|)
    {
      assert SortedAt(b, c, v, k, r, |b|);
      if k < g {
        OffsetMono(c, k, g);
      }
    }
  }

  lemma SortedStep(b: seq<nat>, c: seq<nat>, v: seq<nat>, g: nat, i: nat)
    requires Counted(b, c, g) && i < |b| && 1 <= b[i]
    requires Sorted(b, c, v, g, i)
    requires Offset(c, b[i]) + Count(b[..i], b[i]) < |v|
    ensures Sorted(b, c, v[Offset(c, b[i]) + Count(b[..i], b[i]) := i], g, i + 1)
  {
    var pos := Offset(c, b[i]) + Count(b[..i], b[i]);
    var v' := v[pos := i];
    CountPrefix(b, i, b[i]);
    var n := i + 1;
    forall k: nat, r: nat | 1 <= k <= g && r < Count(b[..n], k)
      ensures SortedAt(b, c, v', k, r, n)
    {
      CountStep(b, i, k);
      if !(k == b[i] && r == Count(b[..i], k)) {
        assert SortedAt(b, c, v, k, r, i);
        Apart(b, c, g, i, k, r);
      }
    }
  }

  /** Positions already filled are not the one symbol `i` goes to. */
  lemma Apart(b: seq<nat>, c: seq<nat>, g: nat, i: nat, k: nat, r: nat)
    requires Counted(b, c, g) && i < |b| && 1 <= b[i]
    requires 1 <= k <= g && r < Count(b[..i], k)
    ensures Offset(c, k) + r != Offset(c, b[i]) + Count(b[..i], b[i])
  {
    CountPrefix(b, i, k);
    CountPrefix(b, i, b[i]);
    if k < b[i] {
      OffsetMono(c, k, b[i]);
    } else if b[i] < k {
      OffsetMono(c, b[i], k);
    }
  }
}
